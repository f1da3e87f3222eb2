# Verification of the meta-rdk-bsp-arm code

This project models the parts of the layer that carry state or arithmetic of their own and proves
what they keep. Each component has its own module. Imperative code is a method on objects, arrays
or loop variables, tied by its postcondition to a function over values; the main results are
lemmas about those functions, for all inputs and all runs.

| module | component |
|---|---|
| `PortTrigger`, `PortTriggerRuns`, `IptTrigger` | ipt_TRIGGER kernel target: protocol, runs, pointer code |
| `Eeprom`, `EepromMerge` | mt7996 EEPROM load, calibration merge, page-wise send |
| `Strings`, `LinkerFlags` | Go linker-flag filter |
| `DhcpOptions` | DHCPv6 option lists of the platform HAL |
| `LinkEvents` | Ethernet link monitor |
| `CNumbers`, `Bits` | C number scanning, bit operations |
| `RadioMask` | iw radio list option |
| `PortRange` | port options of the iptables extension, joined to the kernel matcher |
| `FieldOps` | run-time bit-field helpers |
| `MacCalc` | maccalc utility |
| `UnifiedKernel` | section layout and objcopy command of the wic plugin |

## Findings

Where the code does something other than its comments or callers suggest, the model follows the
code and the lemmas say exactly when the expected behaviour holds.

- The list insertion of the trigger module passes the global head as the new entry, so the list
  never holds more than the newest trigger, and deleting any trigger empties it. A live trigger
  with time left therefore serves packets if and only if it is the newest one and nothing has
  expired since it was created (`ListedIsNewest`, `InboundRedirected`; `FreshTriggerLost` is a run
  in which a fresh trigger is lost).
- With the second kernel patch no timer is ever queued: triggers are never freed (`NeverFreed`).
- The bound of patch 0008 refuses the last half block of an external EEPROM, which stays zero,
  and costs nothing else (`BoundCost`); whether the load succeeds does not depend on it
  (`EchoLoads`, `SameFirstBlock`).
- `parse_ports` cuts numbers to 16 bits before it tests them. User space and kernel agree on an
  accepted range if and only if its upper end is a port number or wraps to 65535 (`RangesAgree`,
  from the command line to the packets `OptionsToPackets` and `CommandLineToPackets`). Port 65616 is accepted and stored as 80
  (`WrapExample`).
- A failing node allocation leaks the text already copied for it, and only then is anything leaked
  (`Build`, `GetDhcpv6Options`; `LeakExample` is such a case). A failing `strdup` is not an error:
  the option is listed without a value.
- Filtering linker flags stops with a run-time panic exactly on lists in which some -extldflags,
  at any depth, has no successor (`PanicsIffUnpaired`); `-extldflags` alone is one
  (`PanicExample`).
- The objcopy command lacks a blank in front of the dtb options. Its words are the intended ones
  if and only if no dtb is given (`CommandWords`).

## Model

| member | source | states |
|---|---|---|
| PortTriggerRuns.InvHolds | recipes-kernel/linux/files/0001-add-support-for-port-triggering.patch:122-189 | in every state of every run the listed trigger is live, and a timer is queued exactly for live triggers of the arming version, so no timer fires on freed memory |
| PortTriggerRuns.ListedIsNewest | recipes-kernel/linux/files/0001-add-support-for-port-triggering.patch:137-189 | a traversal can find trigger i if and only if i is the newest trigger and no trigger at all has been freed since its creation |
| PortTriggerRuns.NothingFoundAfterExpiry | recipes-kernel/linux/files/0001-add-support-for-port-triggering.patch:137-155 | after any expiry no packet is accepted or redirected until a new trigger is created |
| PortTriggerRuns.Provenance | recipes-kernel/linux/files/0001-add-support-for-port-triggering.patch:232-274 | the address a trigger holds is its creator's, or after a redirect that of the last outbound hit; `reply` is set exactly if a redirect happened; ports and protocol are the creating rule's |
| PortTriggerRuns.DnatProvenance | recipes-kernel/linux/files/0001-add-support-for-port-triggering.patch:371-433 | every rewritten packet goes to a host that sent an earlier TCP or UDP packet through an `out` rule, by the newest trigger, inside that trigger's protocol and relate range |
| PortTriggerRuns.OutboundHitsOrCreates | recipes-kernel/linux/files/0001-add-support-for-port-triggering.patch:191-274 | when an outbound packet hits a trigger and when it creates one, in terms of the creating rule and the run |
| PortTriggerRuns.InboundRedirected | recipes-kernel/linux/files/0001-add-support-for-port-triggering.patch:277-309 | when an inbound packet is redirected, both directions |
| PortTriggerRuns.InboundAccepted | recipes-kernel/linux/files/0001-add-support-for-port-triggering.patch:315-349 | when an inbound packet is accepted in the forward chain, both directions |
| PortTriggerRuns.OnlyTcpAndUdp | recipes-kernel/linux/files/0001-add-support-for-port-triggering.patch:450-452 | in every run a packet whose protocol is neither 6 nor 17 changes nothing and goes on, whatever the rule; so does every packet under a rule without a type |
| PortTriggerRuns.OutboundPacket | recipes-kernel/linux/files/0001-add-support-for-port-triggering.patch:232-274 | in every run an outbound packet goes on; it adds a trigger, with the packet's addresses, the rule's ranges and 120 s, exactly if its protocol is 6 or 17, the listed trigger does not serve it and there is memory; otherwise what it changes in that trigger |
| PortTriggerRuns.ForwardedPacket | recipes-kernel/linux/files/0001-add-support-for-port-triggering.patch:315-349 | verdict and new state for a TCP or UDP packet in the forward chain |
| PortTriggerRuns.ReturningPacket | recipes-kernel/linux/files/0001-add-support-for-port-triggering.patch:371-433 | verdict and new state for a TCP or UDP packet to be redirected |
| PortTriggerRuns.TimerEvent | recipes-kernel/linux/files/0001-add-support-for-port-triggering.patch:137-155 | an expiry frees its trigger exactly if that is allocated, queued and due, and empties the list; a tick moves the clock alone |
| PortTriggerRuns.PacketBack | recipes-kernel/linux/files/0001-add-support-for-port-triggering.patch:232-433 | from the events alone: after a packet out that finds no trigger, and until a timer fires or another packet goes out, exactly the TCP and UDP packets of the rule's protocol (or any, under 253) and relate range are accepted, and redirected to its sender |
| PortTriggerRuns.AskedFor | recipes-kernel/linux/files/0001-add-support-for-port-triggering.patch:191-433 | in every run, whatever is accepted or redirected was asked for by an earlier outbound packet whose rule names its protocol and port |
| PortTriggerRuns.DueAfterLastTouch | recipes-kernel/linux/files/0001-add-support-for-port-triggering.patch:122-135 | first patch: each live trigger has one queued timer, due 120 s after its creation or last outbound or forward hit; redirects do not move it |
| PortTriggerRuns.NeverFreedEarly | recipes-kernel/linux/files/0001-add-support-for-port-triggering.patch:147-155 | first patch: a trigger is freed at least 120 s after every event that refreshed it |
| PortTriggerRuns.FreedExactlyOnce | recipes-kernel/linux/files/0001-add-support-for-port-triggering.patch:137-155 | a trigger is dead exactly if an earlier expiry freed it, and only one expiry ever does |
| PortTriggerRuns.DeadStaysDead | recipes-kernel/linux/files/0001-add-support-for-port-triggering.patch:137-145 | a freed trigger is never live again |
| PortTriggerRuns.Conservation | recipes-kernel/linux/files/0001-add-support-for-port-triggering.patch:157-189 | allocations equal live triggers plus frees in every state |
| PortTriggerRuns.NeverFreed | recipes-kernel/linux/files/0002_arm_port_triggering.patch:96-110 | second patch: no timer is ever queued, refreshing changes nothing, every trigger stays allocated with its first expiry |
| PortTriggerRuns.NewestStaysListed | recipes-kernel/linux/files/0002_arm_port_triggering.patch:96-110 | second patch: the list always holds the newest trigger |
| PortTriggerRuns.FreshTriggerLost | recipes-kernel/linux/files/0001-add-support-for-port-triggering.patch:178-184 | a concrete run in which a matching live trigger with 60 s left is not found |
| IptTrigger.ListAdd | recipes-kernel/linux/files/0001-add-support-for-port-triggering.patch:175-178 | the links list_add writes, also when the successor is the second argument itself |
| IptTrigger.ListDel | recipes-kernel/linux/files/0001-add-support-for-port-triggering.patch:142-143 | the links list_del writes |
| IptTrigger.TriggerModule.WalkAlternates | recipes-kernel/linux/files/0001-add-support-for-port-triggering.patch:80-91 | any number of hops from the head reaches only the head or the listed live trigger, alternating |
| IptTrigger.TriggerModule.ListFind | recipes-kernel/linux/files/0001-add-support-for-port-triggering.patch:80-91 | the traversal ends and returns the listed live trigger exactly if it matches |
| IptTrigger.TriggerModule.TriggerRefresh | recipes-kernel/linux/files/0001-add-support-for-port-triggering.patch:122-135 | only a queued timer is moved; shape and all other triggers stay |
| IptTrigger.TriggerModule.TriggerTimeout | recipes-kernel/linux/files/0001-add-support-for-port-triggering.patch:137-155 | deleting a listed or an unlisted trigger leaves the head alone in its ring |
| IptTrigger.TriggerModule.AddNewTrigger | recipes-kernel/linux/files/0001-add-support-for-port-triggering.patch:157-189 | insertion leaves the ring of head and new trigger; a failed allocation changes nothing |
| IptTrigger.TriggerModule.TriggerOut | recipes-kernel/linux/files/0001-add-support-for-port-triggering.patch:232-274 | the pointer code does the protocol's outbound step |
| IptTrigger.TriggerModule.TriggerIn | recipes-kernel/linux/files/0001-add-support-for-port-triggering.patch:315-349 | the pointer code does the protocol's forward step |
| IptTrigger.TriggerModule.TriggerDnat | recipes-kernel/linux/files/0001-add-support-for-port-triggering.patch:371-433 | the pointer code does the protocol's redirect step |
| IptTrigger.TriggerModule.TriggerTarget | recipes-kernel/linux/files/0001-add-support-for-port-triggering.patch:436-461 | one packet through the target is one protocol step |
| IptTrigger.RunModule | recipes-kernel/linux/files/0001-add-support-for-port-triggering.patch:119-461 | on every run, under both patches, the pointer code goes through exactly the protocol's states and verdicts, keeping the list shape |
| Eeprom.BoundedCopyFits | recipes-kernel/linux/linux-yocto-6.18/0008-wifi-mt76-mt7996-bound-the-device-EEPROM-address-bef.patch:35-49 | an address passes the bound if and only if every reply with it, for every length, is copied inside the buffer |
| Eeprom.Mt7996.GetEeprom | recipes-kernel/linux/linux-yocto-6.18/0004-wifi-mt76-add-external-EEPROM-support-for-mt799x-chi.patch:187-285 | for every device, mode and length: the request made, the result (-22 for an invalid or refused reply) and the exact bytes written; a caller's buffer changes only for a valid reply; with the bound no copy leaves the buffer |
| Eeprom.EchoFits | recipes-kernel/linux/linux-yocto-6.18/0004-wifi-mt76-add-external-EEPROM-support-for-mt799x-chi.patch:107-122 | a device that echoes the requested address never makes a copy leave the buffer, with or without the bound |
| Eeprom.ImageOfEcho | recipes-kernel/linux/linux-yocto-6.18/0004-wifi-mt76-add-external-EEPROM-support-for-mt799x-chi.patch:107-122 | after n blocks of an echoing device each byte is its own block's data or zero: no block disturbs another |
| Eeprom.EfuseImage | recipes-kernel/linux/linux-yocto-6.18/0004-wifi-mt76-add-external-EEPROM-support-for-mt799x-chi.patch:107-122 | an efuse load yields the device's byte where the block's reply has no error and is marked valid, the zero-length last block included, and zero elsewhere, with and without the bound |
| Eeprom.ExtImage | recipes-kernel/linux/linux-yocto-6.18/0008-wifi-mt76-mt7996-bound-the-device-EEPROM-address-bef.patch:37-49 | an external load of full valid replies fills the buffer before the bound and its first 7168 bytes with it |
| Eeprom.ExtBytes | recipes-kernel/linux/linux-yocto-6.18/0004-wifi-mt76-add-external-EEPROM-support-for-mt799x-chi.patch:99-122 | an external load from any echoing device, byte by byte: short, invalid and failed replies leave zeros |
| Eeprom.StoredBytes | recipes-kernel/linux/linux-yocto-6.18/0004-wifi-mt76-add-external-EEPROM-support-for-mt799x-chi.patch:224-262 | what any reply, honest or not, puts into the buffer under either version, in numbers |
| Eeprom.Requests | recipes-kernel/linux/linux-yocto-6.18/0004-wifi-mt76-add-external-EEPROM-support-for-mt799x-chi.patch:99-122 | the requests of a load: 480 of 16 bytes, or 8 of 1024 with 512 asked for last |
| Eeprom.LoadsIff | recipes-kernel/linux/linux-yocto-6.18/0004-wifi-mt76-add-external-EEPROM-support-for-mt799x-chi.patch:99-122 | when a load succeeds for any device and version, in terms of the fields of the replies |
| Eeprom.BoundCost | recipes-kernel/linux/linux-yocto-6.18/0008-wifi-mt76-mt7996-bound-the-device-EEPROM-address-bef.patch:37-49 | whatever an echoing device replies, the image with the bound is the image without it below 7168 and zero from there on |
| Eeprom.EchoLoads | recipes-kernel/linux/linux-yocto-6.18/0004-wifi-mt76-add-external-EEPROM-support-for-mt799x-chi.patch:99-122 | a load from an echoing device succeeds, with and without the bound, exactly if its first block is valid and passes the check and no other one fails with an error other than -22 |
| Eeprom.SameFirstBlock | recipes-kernel/linux/linux-yocto-6.18/0008-wifi-mt76-mt7996-bound-the-device-EEPROM-address-bef.patch:37-49 | the block that is checked is the same with and without the bound, so the bound never turns a success into a failure |
| Eeprom.Mt7996.Load | recipes-kernel/linux/linux-yocto-6.18/0004-wifi-mt76-add-external-EEPROM-support-for-mt799x-chi.patch:55-139 | mode and result for every device; without flash data a load succeeds exactly if every block is good and the first passes the check, and then holds the image of all blocks |
| Eeprom.Mt7996.LoadBlocks | recipes-kernel/linux/linux-yocto-6.18/0004-wifi-mt76-add-external-EEPROM-support-for-mt799x-chi.patch:99-122 | the block loop succeeds exactly if every block is good and then holds their image; with the bound, or an echoing device, no copy leaves the buffer |
| EepromMerge.MergeMeaning | recipes-kernel/linux/linux-yocto-6.18/0006-wifi-mt76-mt7996-apply-calibration-free-data-from-OT.patch:145-170 | each byte gets the efuse byte of its last readable entry before the first hard error; bytes with none keep their value |
| EepromMerge.MergeReturns | recipes-kernel/linux/linux-yocto-6.18/0006-wifi-mt76-mt7996-apply-calibration-free-data-from-OT.patch:161-166 | the result is the first hard read error, or 0 if there is none |
| EepromMerge.MergeIdempotent | recipes-kernel/linux/linux-yocto-6.18/0006-wifi-mt76-mt7996-apply-calibration-free-data-from-OT.patch:127-173 | merging again changes nothing, for every table |
| EepromMerge.GetCalFreeData | recipes-kernel/linux/linux-yocto-6.18/0006-wifi-mt76-mt7996-apply-calibration-free-data-from-OT.patch:127-173 | for every table: each byte is the efuse byte at the 16-bit sum of offset and base of its last readable entry, in band and table order up to the first failing one, or unchanged; the result is that failure or 0; and it equals the plain merge |
| EepromMerge.MergedByte | recipes-kernel/linux/linux-yocto-6.18/0006-wifi-mt76-mt7996-apply-calibration-free-data-from-OT.patch:127-173 | the same for the plain merge, tied to tables by the position of each entry |
| EepromMerge.MergedResult | recipes-kernel/linux/linux-yocto-6.18/0006-wifi-mt76-mt7996-apply-calibration-free-data-from-OT.patch:161-166 | the same for its result |
| EepromMerge.MergeBand | recipes-kernel/linux/linux-yocto-6.18/0006-wifi-mt76-mt7996-apply-calibration-free-data-from-OT.patch:145-170 | the loop over one band with the one-block cache and its reset equals the plain merge |
| EepromMerge.MergeEntry | recipes-kernel/linux/linux-yocto-6.18/0006-wifi-mt76-mt7996-apply-calibration-free-data-from-OT.patch:146-170 | one entry with a correct cache has the effect of a fresh read and leaves the cache correct or reset |
| EepromMerge.SendPages | recipes-kernel/linux/linux-yocto-6.18/0006-wifi-mt76-mt7996-apply-calibration-free-data-from-OT.patch:180-203 | for every buffer size page k is the bytes from 1024 k on, the last page holding the rest; the pages concatenate to the buffer; a send error cuts them to a prefix |
| EepromMerge.SetEeprom | recipes-kernel/linux/linux-yocto-6.18/0006-wifi-mt76-mt7996-apply-calibration-free-data-from-OT.patch:176-203 | a failed merge sends nothing, otherwise eight pages carry exactly the merged image |
| Strings.SplitJoin | recipes-devtools/go/go/0007-exec.go-filter-out-build-specific-paths-from-linker-.patch:40-41 | splitting undoes joining on separator-free lists, the empty list becoming one empty part |
| Strings.JoinSplit | recipes-devtools/go/go/0007-exec.go-filter-out-build-specific-paths-from-linker-.patch:40-41 | joining undoes splitting on every string |
| LinkerFlags.FilterWith | recipes-devtools/go/go/0007-exec.go-filter-out-build-specific-paths-from-linker-.patch:26-47 | the loop with its skip flag computes the recursive filter and terminates, total flag length dropping at each recursion |
| LinkerFlags.FilterLinkerFlags | recipes-devtools/go/go/0007-exec.go-filter-out-build-specific-paths-from-linker-.patch:26-47 | the same for the prefixes of the source |
| LinkerFlags.PanicsIffUnpaired | recipes-devtools/go/go/0007-exec.go-filter-out-build-specific-paths-from-linker-.patch:37-41 | indexing past the end happens exactly if some -extldflags, at any depth, has no successor |
| LinkerFlags.KeepsOrder | recipes-devtools/go/go/0007-exec.go-filter-out-build-specific-paths-from-linker-.patch:30-46 | the result lists exactly the positions that do not hold a dropped flag, flags unchanged and arguments filtered |
| LinkerFlags.KeptInOrder | recipes-devtools/go/go/0007-exec.go-filter-out-build-specific-paths-from-linker-.patch:30-46 | those positions come in strictly increasing order and none is missing |
| LinkerFlags.Idempotent | recipes-devtools/go/go/0007-exec.go-filter-out-build-specific-paths-from-linker-.patch:26-47 | filtering a filtered list changes nothing |
| LinkerFlags.ArgIdempotent | recipes-devtools/go/go/0007-exec.go-filter-out-build-specific-paths-from-linker-.patch:40-41 | the same for an -extldflags string |
| LinkerFlags.NoneDropped | recipes-devtools/go/go/0007-exec.go-filter-out-build-specific-paths-from-linker-.patch:35-36 | no flag of a filtered list has a dropped prefix |
| LinkerFlags.InsertDropped | recipes-devtools/go/go/0007-exec.go-filter-out-build-specific-paths-from-linker-.patch:26-47 | a build-path flag inserted at any flag position does not change the result, panics included |
| LinkerFlags.BuildPathInsideArg | recipes-devtools/go/go/0007-exec.go-filter-out-build-specific-paths-from-linker-.patch:37-41 | nor does one put among the parts of an -extldflags string, also when the string has no other part |
| LinkerFlags.InsertDroppedInside | recipes-devtools/go/go/0007-exec.go-filter-out-build-specific-paths-from-linker-.patch:37-41 | an argument with a build path among its parts filters like the argument without it, also if nothing else is in it |
| LinkerFlags.TwoBuildsInsideArg | recipes-devtools/go/go/0007-exec.go-filter-out-build-specific-paths-from-linker-.patch:37-41 | replacing one build path by another inside an -extldflags string does not change the result |
| LinkerFlags.TwoBuilds | recipes-devtools/go/go/0007-exec.go-filter-out-build-specific-paths-from-linker-.patch:26-47 | replacing one build path by another among the flags does not change the result |
| LinkerFlags.AlikeIffSameKept | recipes-devtools/go/go/0007-exec.go-filter-out-build-specific-paths-from-linker-.patch:26-47 | two well-paired flag lists filter alike if and only if they keep the same flags and filtered arguments in the same order |
| LinkerFlags.PrefixDropped | recipes-devtools/go/go/0007-exec.go-filter-out-build-specific-paths-from-linker-.patch:35-36 | a flag that starts with a listed prefix disappears from any flag position, whatever follows the prefix |
| LinkerFlags.OtherKept | recipes-devtools/go/go/0007-exec.go-filter-out-build-specific-paths-from-linker-.patch:43-45 | a flag that starts with none of the prefixes stays in front of the filtered rest |
| LinkerFlags.ArgumentFiltered | recipes-devtools/go/go/0007-exec.go-filter-out-build-specific-paths-from-linker-.patch:37-41 | an -extldflags flag stays, followed by its filtered argument, and panics without one |
| LinkerFlags.FlagStays | recipes-devtools/go/go/0007-exec.go-filter-out-build-specific-paths-from-linker-.patch:43-45 | wherever a flag without a listed prefix stands, the result holds it |
| LinkerFlags.GoDrops | recipes-devtools/go/go/0007-exec.go-filter-out-build-specific-paths-from-linker-.patch:35 | the seven prefixes of the source, each with any path behind it, are dropped |
| LinkerFlags.GoKeeps | recipes-devtools/go/go/0007-exec.go-filter-out-build-specific-paths-from-linker-.patch:35-45 | every other flag is kept, with only -extldflags taking an argument |
| LinkerFlags.PanicExample | recipes-devtools/go/go/0007-exec.go-filter-out-build-specific-paths-from-linker-.patch:37-41 | a flag list on which the filter panics |
| DhcpOptions.OptList.Add | meta-rdk-broadband/recipes-ccsp/hal/hal-platform-generic/platform_hal.c:618-651 | a valid tag and a successful malloc put one new node in front; otherwise nothing changes |
| DhcpOptions.OptList.FreeAll | meta-rdk-broadband/recipes-ccsp/hal/hal-platform-generic/platform_hal.c:659-678 | every node and value of the list is freed, once each, and never read afterwards |
| DhcpOptions.AddOption17 | meta-rdk-broadband/recipes-ccsp/hal/hal-platform-generic/platform_hal.c:704-754 | a missing vendor file is a success without an option; a failed allocation adds nothing |
| DhcpOptions.AddRequests | meta-rdk-broadband/recipes-ccsp/hal/hal-platform-generic/platform_hal.c:765-771 | success exactly if all three nodes can be allocated, options 24, 23 and 5 in front |
| DhcpOptions.AddSend | meta-rdk-broadband/recipes-ccsp/hal/hal-platform-generic/platform_hal.c:773-779 | success, contents and unlisted texts for every allocation pattern |
| DhcpOptions.Build | meta-rdk-broadband/recipes-ccsp/hal/hal-platform-generic/platform_hal.c:763-792 | all or nothing: grown lists holding every text allocated by this call, or two empty lists with everything that was on them freed; a text leaks exactly if its node failed |
| DhcpOptions.LeakExample | meta-rdk-broadband/recipes-ccsp/hal/hal-platform-generic/platform_hal.c:773-779 | an allocation pattern that leaks: only the node of option 25 fails |
| DhcpOptions.GetDhcpv6Options | meta-rdk-broadband/recipes-ccsp/hal/hal-platform-generic/platform_hal.c:756-792 | the same behind the null checks, with the tags 24, 23, 5 and 17, 16, 25, their texts, the exact success condition and the exact leak condition written out |
| LinkEvents.ThreadMain | meta-rdk-broadband/recipes-ccsp/hal/hal-ethsw-generic/ccsp_hal_ethsw.c:117-175 | over any poll history the log is the changes of each round in interface order, round by round; for each interface it is its samples without consecutive repeats; none without a callback |
| LinkEvents.RoundAscends | meta-rdk-broadband/recipes-ccsp/hal/hal-ethsw-generic/ccsp_hal_ethsw.c:149 | the reports of one round come in strictly increasing interface order |
| LinkEvents.RoundReports | meta-rdk-broadband/recipes-ccsp/hal/hal-ethsw-generic/ccsp_hal_ethsw.c:158-170 | they are exactly the running flags of the interfaces that had none before or another one at their last sample |
| LinkEvents.Monitor.Turn | meta-rdk-broadband/recipes-ccsp/hal/hal-ethsw-generic/ccsp_hal_ethsw.c:144-172 | one turn keeps both properties |
| LinkEvents.Monitor.PollLink | meta-rdk-broadband/recipes-ccsp/hal/hal-ethsw-generic/ccsp_hal_ethsw.c:149-170 | what one sample changes |
| LinkEvents.DedupAlternates | meta-rdk-broadband/recipes-ccsp/hal/hal-ethsw-generic/ccsp_hal_ethsw.c:158-169 | reports alternate, start with the first sample and end with the last |
| LinkEvents.DedupIsUnique | meta-rdk-broadband/recipes-ccsp/hal/hal-ethsw-generic/ccsp_hal_ethsw.c:158-169 | no other alternating sequence with one entry per change starts like the samples |
| LinkEvents.SeenGrows | meta-rdk-broadband/recipes-ccsp/hal/hal-ethsw-generic/ccsp_hal_ethsw.c:144-172 | a longer history only appends reports |
| RadioMask.ParseRadioList | recipes-connectivity/iw/iw/310-vif_radio_mask.patch:7-42 | the loop terminates and computes the specified mask or error |
| RadioMask.ParseMeaning | recipes-connectivity/iw/iw/310-vif_radio_mask.patch:19-35 | on every string, success exactly if each comma-separated item is a complete number of at most 31, in any base strtoul knows |
| RadioMask.DecimalLists | recipes-connectivity/iw/iw/310-vif_radio_mask.patch:19-35 | a decimal list parses exactly if all numbers are at most 31, and bit i is set exactly if i occurs |
| RadioMask.SingleItem | recipes-connectivity/iw/iw/310-vif_radio_mask.patch:19-35 | one number, decimal, octal or hexadecimal in either case, behind blanks and a sign: accepted exactly if its 64-bit value is at most 31, selecting that radio alone |
| CNumbers.StrtoulNothing | recipes-connectivity/iw/iw/310-vif_radio_mask.patch:22-34 | a text without a digit is left unread, so that the parser rejects it |
| RadioMask.ZeroMeansAll | recipes-connectivity/iw/iw/310-vif_radio_mask.patch:16-17 | the mask is 0 for the word all and for no other argument |
| RadioMask.PrintRadios | recipes-connectivity/iw/iw/310-vif_radio_mask.patch:85-96 | the printed text lists the ids of the set bits |
| RadioMask.ListedWords | recipes-connectivity/iw/iw/310-vif_radio_mask.patch:90-94 | split at blanks, the text is the ids in decimal |
| RadioMask.BitsAscend | recipes-connectivity/iw/iw/310-vif_radio_mask.patch:85-96 | those ids come in strictly ascending order |
| RadioMask.RoundTrip | recipes-connectivity/iw/iw/310-vif_radio_mask.patch:7-42 | the ids printed for any nonzero 32-bit mask, joined by commas, parse back to it |
| PortRange.ParsePorts | recipes-extended/iptables/files/0001-add-port-triggering-support.patch:84-115 | the two stored ports or the error, for every text |
| PortRange.PortsOfDecimal | recipes-extended/iptables/files/0001-add-port-triggering-support.patch:91-113 | what becomes of decimal arguments of any int size |
| PortRange.CutAtFirst | recipes-extended/iptables/files/0001-add-port-triggering-support.patch:91 | a range is cut at its first colon, whatever else it holds |
| PortRange.PortsOfText | recipes-extended/iptables/files/0001-add-port-triggering-support.patch:91-113 | what becomes of any argument whatever, with or without a colon, in terms of the numbers strtol reads |
| CNumbers.StrtolReads | recipes-extended/iptables/files/0001-add-port-triggering-support.patch:93-105 | the number read from any text: blanks, sign, digits up to another character, clamped to 64 bits |
| CNumbers.StrtolNothing | recipes-extended/iptables/files/0001-add-port-triggering-support.patch:93-105 | a text without digits reads as 0 |
| PortRange.RangesAgree | recipes-kernel/linux/files/0001-add-support-for-port-triggering.patch:191-224 | accepted decimal ranges match exactly the ports they name, in the kernel, if and only if the upper end fits or wraps to 65535 |
| PortRange.KernelCheck | recipes-kernel/linux/files/0001-add-support-for-port-triggering.patch:463-503 | the kernel accepts a rule exactly on the hooks PRE_ROUTING and FORWARD and, for `out`, with protocol 6, 17 or 253 and ranges not starting at 0 |
| PortRange.ParsedFlags | recipes-extended/iptables/files/0001-add-port-triggering-support.patch:121-230 | each flag is set exactly if one of the options given raises it |
| PortRange.AcceptedIffEach | recipes-extended/iptables/files/0001-add-port-triggering-support.patch:121-230 | a sequence of options is accepted exactly if each of them is acceptable by itself |
| PortRange.AcceptedTexts | recipes-extended/iptables/files/0001-add-port-triggering-support.patch:121-230 | the same in terms of the option texts: known names, and parsable ranges without a preceding `!` |
| PortRange.ParsedKind | recipes-extended/iptables/files/0001-add-port-triggering-support.patch:128-193 | the rule has the last type and the last protocol given |
| PortRange.TypeNamed | recipes-extended/iptables/files/0001-add-port-triggering-support.patch:142-163 | the last type option sets the kind named by the first letters strncasecmp compares, in either case |
| PortRange.ProtoNamed | recipes-extended/iptables/files/0001-add-port-triggering-support.patch:166-192 | the last protocol option makes the rule serve 6 for tcp, 17 for udp and both for all and both, in either case |
| PortRange.ParsedPorts | recipes-extended/iptables/files/0001-add-port-triggering-support.patch:195-224 | the rule holds the ports of the last match and relate options |
| PortRange.FinalCheckSuffices | recipes-extended/iptables/files/0001-add-port-triggering-support.patch:275-297 | a checked `out` rule is accepted by the kernel exactly if neither range starts at 0 |
| PortRange.FinalCheckIff | recipes-extended/iptables/files/0001-add-port-triggering-support.patch:275-297 | the final check asks for protocol, match and relate options exactly if some type option says out |
| PortRange.FinalCheckGuarantees | recipes-extended/iptables/files/0001-add-port-triggering-support.patch:275-297 | an `out` rule that passes the final check was given a protocol and two valid port ranges |
| PortRange.OptionsToPackets | recipes-extended/iptables/files/0001-add-port-triggering-support.patch:121-297 | for any accepted `out` options the trigger made from them serves the last protocol given and matches exactly the last ranges given if and only if each upper end fits |
| PortRange.CommandLineToPackets | recipes-extended/iptables/files/0001-add-port-triggering-support.patch:121-297 | from the option texts to the packets of any run: what an accepted `out` command lets back in and where it is redirected, with protocol names and port numbers as given |
| PortRange.WrapExample | recipes-extended/iptables/files/0001-add-port-triggering-support.patch:91-99 | an accepted port that is stored as another one |
| PortRange.TriggerOptions.Parse | recipes-extended/iptables/files/0001-add-port-triggering-support.patch:121-230 | one option's effect on rule and flags, or the error |
| FieldOps.FfsIsLowest | recipes-kernel/linux/linux-yocto-6.18/0009-bitfield-Add-non-constant-field_-prep-get-helpers.patch:63-64 | the shift is the index of the lowest set bit |
| FieldOps.GetPrep | recipes-kernel/linux/linux-yocto-6.18/0009-bitfield-Add-non-constant-field_-prep-get-helpers.patch:59-75 | get after prep is the value cut to the shifted mask, at every width |
| FieldOps.PrepGet | recipes-kernel/linux/linux-yocto-6.18/0009-bitfield-Add-non-constant-field_-prep-get-helpers.patch:59-75 | prep after get is the register cut to the mask |
| FieldOps.FieldsIndependent | recipes-kernel/linux/linux-yocto-6.18/0009-bitfield-Add-non-constant-field_-prep-get-helpers.patch:85-86 | fields with disjoint masks, combined with OR, read back independently |
| FieldOps.Repack | recipes-kernel/linux/linux-yocto-6.18/0009-bitfield-Add-non-constant-field_-prep-get-helpers.patch:59-75 | taking a register apart and packing it restores the bits the masks cover |
| MacCalc.ParseMac | recipes-networking/maccalc/src/main.c:28-39 | the bytes written and the result, partial matches included |
| MacCalc.ParsePrint | recipes-networking/maccalc/src/main.c:28-45 | parsing a printed address gives it back |
| MacCalc.PrintedText | recipes-networking/maccalc/src/main.c:41-45 | the printed text character by character: lower-case hex digits, colons, newline |
| MacCalc.ScanIgnoresCase | recipes-networking/maccalc/src/main.c:28-39 | letter case plays no role in parsing |
| MacCalc.FieldReads | recipes-networking/maccalc/src/main.c:32-33 | a field is one or two hex digits behind blanks |
| MacCalc.FieldMissing | recipes-networking/maccalc/src/main.c:32-36 | anything else is a mismatch |
| MacCalc.AddInPlace | recipes-networking/maccalc/src/main.c:65-69 | 32-bit wrap-around still adds modulo 2^24 on the low three bytes and leaves the others alone |
| MacCalc.DoAdd | recipes-networking/maccalc/src/main.c:47-73 | the printed address is the sum, or the error exit is taken |
| CNumbers.AtoiDecimal | recipes-networking/maccalc/src/main.c:63 | a decimal increment, positive or negative, is read as the number it stands for |
| MacCalc.SumsCompose | recipes-networking/maccalc/src/main.c:65-69 | adding i and then j is adding i + j |
| MacCalc.SumIsUnique | recipes-networking/maccalc/src/main.c:65-69 | a sum is determined, and adding 0 in all gives the address back |
| MacCalc.ReadSafe | recipes-networking/maccalc/src/main.c:128-154 | however reads are cut and interrupted, the first count bytes of the stream are stored and counted; -1 exactly if an error comes first |
| MacCalc.PayloadIsBytes | recipes-networking/maccalc/src/main.c:134-146 | the payload is all chunks up to the end of file or the error |
| MacCalc.InterruptionIgnored | recipes-networking/maccalc/src/main.c:138-141 | an interrupted read anywhere changes nothing |
| MacCalc.CutsIgnored | recipes-networking/maccalc/src/main.c:147-151 | nor does cutting a read in two |
| UnifiedKernel.NextAlignedIsLeast | scripts/lib/wic/plugins/source/rpi-plus-efi.py:368-373 | the rounding gives the least aligned address strictly beyond the end |
| UnifiedKernel.Layout | scripts/lib/wic/plugins/source/rpi-plus-efi.py:366-396 | the step-by-step offsets are the packed layout, each section by its name with its own size, linux taking the dtb's slot without one |
| UnifiedKernel.PackedSections | scripts/lib/wic/plugins/source/rpi-plus-efi.py:366-396 | addresses are aligned, strictly ordered, disjoint, and 1 to align bytes past the previous end |
| UnifiedKernel.PackedIsTightest | scripts/lib/wic/plugins/source/rpi-plus-efi.py:366-396 | no other such layout puts any section lower |
| UnifiedKernel.ObjcopyCommand | scripts/lib/wic/plugins/source/rpi-plus-efi.py:384-411 | the text of the command with and without a dtb |
| UnifiedKernel.PrepareCommand | scripts/lib/wic/plugins/source/rpi-plus-efi.py:366-411 | layout and command together: every word of the command, with each section's own file and the hexadecimal address it has in the layout |
| UnifiedKernel.CommandWords | scripts/lib/wic/plugins/source/rpi-plus-efi.py:384-411 | its words are the intended options if and only if no dtb is given |

## Left out

- Concurrency between packet paths and timers: each packet and each expiry is one atomic step, and jiffies are natural numbers.
- netfilter, conntrack, MCU messages, netlink, popen and files: replies, allocation results, file contents and read results are parameters.
- The text of option 17 (its sub-option lengths count hex digits) and `ascii_to_hex`: the option's value is a parameter.
- DHCP tag numbers: `DHCPV4_OPT_END` and the option constants are named in a header that is not part of this model; 255 and the numbers in their names are used.
- DhcpOptions.GetDhcpv6Options: the two list pointers are distinct and the lists share no memory, as the two-parameter interface implies.
- The calibration tables and their choice by chip: the merge is proved for every table whose destinations lie in the image.
- Eeprom.Mt7996.Load: the free-block threshold, the EEPROM check and the default image lie outside the patches; the first two are parameters, the copy of the default image is not modelled.
- Eeprom.Mt7996.GetEeprom: a copy outside the buffer, possible before the bound, is a distinct outcome without effect.
- The message header of each EEPROM page: only the page contents are modelled.
- Signs and 0x prefixes inside the two-character fields of a MAC address, which sscanf also reads.
- The byte-wise and, or and xor commands of maccalc and the block count of the wic plugin: easy.
- TRIGGER_save and TRIGGER_print: their output is not in the parser's language.
- The rest of platform_hal.c and ccsp_hal_ethsw.c, the Rockchip drivers, the other Go patches, recipes and configuration.
