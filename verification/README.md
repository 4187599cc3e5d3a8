# Contiki applications: a verified model

Five parts of the Contiki tree (the branch that carries P2P-RPL) are modelled here and their
central promises proved for all inputs, all runs or all reachable states:

* **Deluge** (`apps/deluge`): N nodes disseminate a paged object over a channel that loses,
  duplicates and reorders. `DelugeNode` has the node, its handlers and the dispatcher as values,
  `DelugeObject` the `current_object` that they update in place, `DelugeNetwork` the runs,
  `DelugeSafety` what every run keeps, `DelugeDispatch` what the dispatcher's length test makes of
  that, `DelugeAnswers` what each message brings, `DelugeTrickle` the rounds, `DelugeProgress` that
  downloads can always be finished, `DelugeSpread` dissemination from the start, `DelugeStaleServe`
  and `DelugeDamage` two ways to wrong bytes.
* **Code propagation** (`apps/codeprop`): a go-back-N broadcast with NACK rewind, fed over TCP
  (`CodePropModel`, `CodePropObject`, `CodePropNetwork`, `CodePropAnswers`).
* **tunslip** (`tools/tunslip.c`): one's-complement checksums (`Checksum`, `IpCheck`), the
  identification patch (`IpPatch`), what the check reads (`IpMemory`) and what its
  results mean (`IpVerdict`), SLIP framing and its
  resumable reader (`Slip`), the output queue (`SlipQueue`), the stateful program around them
  (`TunSlip`), and the DHCP relay in both directions (`DhcpRelay`, `DhcpRequest`).
* **CoAP** (`apps/rest-coap`, `apps/rest-common`): option list and codec (`CoapCodec`), the linked
  packet (`CoapPacket`), integer headers (`CoapHeaders`), integer and query helpers (`RestInts`,
  `RestQuery`), the bump allocator (`BumpBuffer`).
* **Base64** (`apps/shell/shell-base64.c`): the streaming decoder (`Base64`).

Code that changes state is a class (or a method over an array) whose methods are proved to move
the state exactly as a specification function says; the theorems are about those functions.

## What does not hold, and exactly when it does

The model follows the code where the code and its documentation differ.

* `command_dispatcher` hands a profile on only if it is at least as long as its header plus its page
  count *times the version of its first page* (`apps/deluge/deluge.c:609-610`), while `send_profile`
  sends one byte a page. So a profile passes exactly when it is empty or that version is 0 or 1
  (`DelugeNode.ProfilePassesIff`), the only update ever adopted is the one from version 0 to
  version 1 (`UpdatesOnlyToFirst`), and an older node can come to have a node's version exactly
  when that node's profile passes (`SpreadsIff`). In these runs content safety holds without any
  further condition (`DispatchedSafety`) and no node is ever stuck (`NeverStuck`).
* All other Deluge theorems hold for the test as it is written and for the test that the length sent
  would meet (`Platform.dispatch`). With the latter, the guard that serves a request for a page up to
  *and including* the first missing one (`apps/deluge/deluge.c:415`) matters:
  `DelugeStaleServe.ContentSafetyFails` is a run of three nodes, not possible behind the dispatcher
  as it is written, that ends with a complete page of wrong bytes. `RequestBackedIff` says exactly
  which requests do this, `ServedPacketsAuthenticIff` exactly when the packets sent are wrong, and
  `ContentSafety` covers the runs in which no such request is delivered.
* Deluge copies a payload before testing its CRC (`apps/deluge/deluge.c:454-461`).
  `DamagedPacketIff` says exactly when a damaged packet spoils the page being received, and
  `DamageSpoilsPage` shows the page completing with the damaged bytes.
* In `apps/codeprop/codeprop.c` a receiver that joins at a nonzero address writes its NACK into the
  packet it is looking at (`:272-273`), so the loop test that follows reads address 0 (`:301`) and
  the packet is stored at 0. This is modelled as it is: `DataKeepsPrefixIff` gives the exact
  condition, `SafetyFailsOnLateJoin` the run, and safety is proved for runs without late joins.
* The identification patch in `write_to_serial` does not always keep a packet acceptable:
  `PatchAcceptedExactly` says when it does for every packet. From 12 bytes on that is unless the
  header length field is 2, where the header sum covers the identification but not the checksum
  (`PatchAcceptedIff`). Such packets exist on little-endian hosts (`LittleEndianDrops`,
  `StrangeExists`) and on big-endian hosts none fits the tun buffer (`BigEndianKeeps`).
* check_ip reads header fields whatever the stated length. An accepted packet is accepted in every
  memory exactly when it is `Robust` (`RobustIff`); `ShortPacketsReadBehind` is one that is not.
* A relayed DHCP request carries the relay's options where the server finds them exactly when the
  client's END is its last byte (`SeenByServerIff`); one byte behind it hides them (`PaddingHides`).
  In the other direction the copying loop filters every well-formed list, closed or not
  (`OutputFiltered`, `OutputUnclosed`), but takes the byte behind a pad for a length (`PadSwallows`).
* A profile longer than the table adds pages of version 0, which refuse every packet of the profile's
  version when the cursor comes to them (`GrownPageStuck`).
* CoAP packets survive the codec exactly when they fit the format (`RoundTripIff`). Asking the
  allocator for 0xffff bytes gives an empty block (`WrapOverlaps`); the longest option values and
  payloads therefore overrun their blocks (`CoapPacket.Stored`).

## Model

| member | source | states |
|---|---|---|
| `DelugeNode.HighestAvailable` | apps/deluge/deluge.c:226-238 | everything before the result is complete and the page at it is not |
| `DelugeNode.SlotOfSplice` | apps/deluge/deluge.c:454-455 | copying a payload into its slot changes that slot and no other |
| `DelugeNode.SlotsDeterminePage` | apps/deluge/deluge.c:464-473 | a page is determined by its four slots |
| `DelugeNode.PagePackets` | apps/deluge/deluge.c:347-374 | exactly the packets asked for are sent |
| `DelugeNode.ProfilePassesIff` | apps/deluge/deluge.c:607-612 | as the length test is written, a profile passes exactly when it is empty or its first page has version 0 or 1 |
| `DelugeObject.Deluge.constructor` | apps/deluge/deluge.c:191-224 | all pages of the stored file are held in the given version |
| `DelugeObject.Deluge.Highest` | apps/deluge/deluge.c:226-238 | the loop finds the first missing page |
| `DelugeObject.Deluge.RecentlyActive` | apps/deluge/deluge.c:320-334 | the loop of rule M.5 computes the suppression test |
| `DelugeObject.Deluge.HandleSummary` | apps/deluge/deluge.c:291-345 | the object moves as OnSummary says |
| `DelugeObject.Deluge.Follow` | apps/deluge/deluge.c:312-344 | rule M.5: a source is chosen exactly when it holds more pages of the wanted version and nobody asked of late |
| `DelugeObject.Deluge.HandleRequest` | apps/deluge/deluge.c:398-429 | the object moves as OnRequest says, with the `<=` guard |
| `DelugeObject.Deluge.Queue` | apps/deluge/deluge.c:416-427 | rule T.1: the page asked for becomes the transmit page, or its set grows |
| `DelugeObject.Deluge.CopyPayload` | apps/deluge/deluge.c:454-455 | current_page gets the payload in its slot |
| `DelugeObject.Deluge.AbsorbPacket` | apps/deluge/deluge.c:453-497 | copy, CRC test, bitmap, and completion with promotion on the last page |
| `DelugeObject.Deluge.HandlePacket` | apps/deluge/deluge.c:431-498 | the object moves as OnPacket says; a packet for another page may be out of range |
| `DelugeObject.Deluge.MergeTable` | apps/deluge/deluge.c:552-570 | pages with an older version are reset, new pages start at version 0 |
| `DelugeObject.Deluge.InstallTable` | apps/deluge/deluge.c:543-572 | new table, and the receive cursor at its first missing page |
| `DelugeObject.Deluge.AdoptProfile` | apps/deluge/deluge.c:540-580 | the object moves as Adopt says |
| `DelugeObject.Deluge.HandleProfile` | apps/deluge/deluge.c:524-580 | only a newer profile is adopted; if the table cannot be allocated the object's size has changed all the same |
| `DelugeObject.Deluge.Receive` | apps/deluge/deluge.c:582-616 | the dispatcher: the length test and the handler; a well-formed message keeps the node's invariant |
| `DelugeObject.Deluge.SendRequest` | apps/deluge/deluge.c:240-267 | the request names the missing packets, or those of whatever lies behind the table; CONST_LAMBDA requests end reception; the node's invariant is kept |
| `DelugeObject.Deluge.AdvertiseSummary` | apps/deluge/deluge.c:269-289 | a summary is sent unless enough were heard |
| `DelugeObject.Deluge.SendProfile` | apps/deluge/deluge.c:500-522 | a due profile carries all page versions |
| `DelugeObject.Deluge.TransmitPage` | apps/deluge/deluge.c:347-396 | the queued packets of the transmit page are sent and the queue is emptied |
| `DelugeObject.Deluge.Round` | apps/deluge/deluge.c:663-686 | the trickle interval is reset or doubled within its bounds |
| `DelugeAnswers.RequestSends` | apps/deluge/deluge.c:398-429 | rule T.1: for the page being sent what was waiting stays waiting, for another page exactly what is asked for goes out |
| `DelugeAnswers.TwoRequestsSend` | apps/deluge/deluge.c:398-429 | after two requests for a page exactly what one or the other asked for, or was waiting, goes out |
| `DelugeAnswers.BothCovered` | apps/deluge/deluge.c:347-429 | two askers of a page both get all they miss of it |
| `DelugeAnswers.RequestRefused` | apps/deluge/deluge.c:403-415 | any other request changes nothing but the mark for a differing version |
| `DelugeAnswers.SentOnce` | apps/deluge/deluge.c:376-396 | what was sent is not sent again |
| `DelugeAnswers.RequestsEnd` | apps/deluge/deluge.c:240-267 | two requests in a row ask for exactly what is missing, and the second ends reception |
| `DelugeAnswers.UnwantedNotFollowed` | apps/deluge/deluge.c:312-318 | a summary of another version, or offering no missing page, is not followed |
| `DelugeAnswers.KeptData` | apps/deluge/deluge.c:320-329 | which page's data time the second comparison keeps, although it compares request times |
| `DelugeAnswers.RecentRequestsSuppress` | apps/deluge/deluge.c:331-334 | if every advertised page was asked for within 2 * interval seconds the summary is not followed |
| `DelugeAnswers.RecentDataSuppresses` | apps/deluge/deluge.c:331-334 | if the data time kept is within interval seconds it is not followed, whenever pages were asked for |
| `DelugeAnswers.StaleIsFollowed` | apps/deluge/deluge.c:312-344 | a wanted summary is followed when one page was asked for longer ago and the data time kept is older |
| `DelugeAnswers.QuietIsFollowed` | apps/deluge/deluge.c:312-344 | a wanted summary is followed when nothing was asked for or heard within 2 * interval seconds |
| `DelugeAnswers.ProfileAdopted` | apps/deluge/deluge.c:533-580 | an adopted profile page by page: the higher version, raised pages emptied, others untouched, new ones at version 0 |
| `DelugeAnswers.GrownPageStuck` | apps/deluge/deluge.c:552-570 | a page behind the old table refuses every packet of the profile's version |
| `DelugeTrickle.IntervalDoubles` | apps/deluge/deluge.c:663-686 | over k quiet rounds the interval is 2^k times as long, up to 64 seconds |
| `DelugeTrickle.DifferenceResets` | apps/deluge/deluge.c:299-305 | a differing summary sends it back to 2 seconds |
| `DelugeTrickle.OtherVersionResets` | apps/deluge/deluge.c:407-450 | so does a request or packet of another version that is looked at |
| `DelugeTrickle.AgreementSilences` | apps/deluge/deluge.c:269-310 | one agreeing summary silences summary and profile until the next round |
| `DelugeTrickle.ProfileOnce` | apps/deluge/deluge.c:500-522 | a due profile goes out once, and only while nothing was advertised |
| `DelugeTrickle.AdvertisementFollowed` | apps/deluge/deluge.c:269-345 | what an updating node advertises is followed by one that updates to the same version and has fewer pages |
| `DelugeNetwork.CursorPageKeepsTable` | apps/deluge/deluge.c:463-491 | completing the page at the cursor moves the cursor to an incomplete page |
| `DelugeNetwork.PacketKeepsShape` | apps/deluge/deluge.c:431-498 | a packet keeps the node invariant |
| `DelugeNetwork.ProfileLiftsAllOrNone` | apps/deluge/deluge.c:552-570 | an accepted profile resets all pages or none |
| `DelugeNetwork.ProfileKeepsShape` | apps/deluge/deluge.c:524-580 | a profile keeps the node invariant |
| `DelugeNetwork.RequestKeepsShape` | apps/deluge/deluge.c:398-429 | a request keeps the node invariant |
| `DelugeNetwork.MessageKeepsShape` | apps/deluge/deluge.c:582-616 | so does every message behind the dispatcher |
| `DelugeNetwork.ReactKeepsShape` | apps/deluge/deluge.c:240-580 | every handler and timer keeps it and sends only well-formed messages |
| `DelugeNetwork.RunKeepsShape` | apps/deluge/deluge.c:150-580 | so does every run |
| `DelugeNetwork.StartHasShape` | apps/deluge/deluge.c:191-224 | equal-sized objects start in the invariant |
| `DelugeSafety.PacketBuffer` | apps/deluge/deluge.c:453-473 | after an authentic packet every received slot is right, and all four make the page |
| `DelugeSafety.PacketKeepsContent` | apps/deluge/deluge.c:431-498 | authentic packets keep page content, slots and transmit queue right |
| `DelugeSafety.ProfileKeepsContent` | apps/deluge/deluge.c:524-580 | so do profiles |
| `DelugeSafety.RequestBackedIff` | apps/deluge/deluge.c:413-428 | a request leaves only complete pages queued exactly when it is not for the first missing page |
| `DelugeSafety.SentPacketsAuthenticIff` | apps/deluge/deluge.c:347-396 | what is sent is authentic exactly when the file holds the right slots |
| `DelugeSafety.ServedPacketsAuthenticIff` | apps/deluge/deluge.c:398-429 | a served request gives authentic packets exactly when the page was not missing or its stale slots are right |
| `DelugeSafety.RunKeepsContent` | apps/deluge/deluge.c:347-580 | every disciplined run keeps the content invariant of all nodes and messages |
| `DelugeSafety.CoherentOrigin` | apps/deluge/deluge.c:191-224 | a coherent start defines one file per version |
| `DelugeSafety.ContentSafety` | apps/deluge/deluge.c:347-580 | in every disciplined run every complete page holds bytes some node started with for that page and version |
| `DelugeSafety.PromotionStep` | apps/deluge/deluge.c:476-482 | version changes only to update_version, in a step that leaves every page complete |
| `DelugeSafety.PromotionInvariant` | apps/deluge/deluge.c:431-580 | pages below the cursor complete, complete iff ALL_PACKETS, version <= update_version <= page versions, in every reachable state |
| `DelugeSafety.Uniformity` | apps/deluge/deluge.c:500-580 | in every reachable state page versions of a node agree, and so do those of every profile sent |
| `DelugeSafety.Monotonicity` | apps/deluge/deluge.c:431-580 | along every run no version number decreases |
| `DelugeSafety.DamagedPacketIff` | apps/deluge/deluge.c:453-461 | a packet failing its CRC keeps the slots right exactly when its slot was not received or its bytes are right |
| `DelugeDamage.DamageSpoilsPage` | apps/deluge/deluge.c:453-473 | for every image and every CRC, a damaged copy of a received packet is refused and still ends up in the completed page |
| `DelugeStaleServe.ContentSafetyFails` | apps/deluge/deluge.c:413-428 | the handlers without the dispatcher's test: a three-node run ends with a complete page of version 2 holding version 1's bytes |
| `DelugeDispatch.NeverServesMissing` | apps/deluge/deluge.c:413-428 | behind the dispatcher as written no request reaches data of a missing page |
| `DelugeDispatch.AdoptedIsFirst` | apps/deluge/deluge.c:533-535 | a profile that passes and is adopted takes a node from version 0 to version 1 |
| `DelugeDispatch.RunKeepsStage` | apps/deluge/deluge.c:582-616 | in every such run each node holds one whole version or updates from 0 to 1, and the run is disciplined |
| `DelugeDispatch.DispatchedSafety` | apps/deluge/deluge.c:347-616 | content safety for every run of the dispatcher as written, without further condition |
| `DelugeDispatch.UpdatesOnlyToFirst` | apps/deluge/deluge.c:607-612 | an update version changes only from 0 to 1 |
| `DelugeDispatch.VersionsStay` | apps/deluge/deluge.c:582-616 | in every reachable state a node has its first version, or 1 in place of 0 |
| `DelugeProgress.PageCompletes` | apps/deluge/deluge.c:431-498 | packets covering what is missing complete the page in any order and multiplicity, and promote on the last page |
| `DelugeProgress.HolderServes` | apps/deluge/deluge.c:398-429 | a node with the whole object serves every request for its version, whatever it was about to send |
| `DelugeProgress.AnswerCovers` | apps/deluge/deluge.c:347-396 | the answer holds every packet the request misses |
| `DelugeProgress.DeliveriesFeed` | apps/deluge/deluge.c:431-498 | delivering packets one by one is feeding them to the node, and is disciplined |
| `DelugeProgress.PageExchange` | apps/deluge/deluge.c:240-498 | request, answer and packets complete the receiver's page and leave the holder one |
| `DelugeProgress.ObjectCompletes` | apps/deluge/deluge.c:240-498 | from every state in which a node misses pages another holds, a run completes and promotes it |
| `DelugeProgress.ObjectDelivered` | apps/deluge/deluge.c:240-498 | and its file is then exactly that version's |
| `DelugeSpread.NeverStuck` | apps/deluge/deluge.c:240-616 | from every reachable state, for every node, a run leads to it having one whole object of the start in its version |
| `DelugeSpread.Told` | apps/deluge/deluge.c:269-345 | a summary to a newer node and its profile back make the older one want its version |
| `DelugeSpread.Dissemination` | apps/deluge/deluge.c:191-616 | from every start, for every node whose profile passes, a run gives every older node its version and its bytes |
| `DelugeSpread.SpreadsIff` | apps/deluge/deluge.c:191-616 | an older node has that version in some run exactly when the profile passes the length test |
| `CodePropObject.CodeProp.constructor` | apps/codeprop/codeprop.c:162-200 | nothing is being received or sent at the start |
| `CodePropObject.CodeProp.EepromWrite` | apps/codeprop/codeprop.c:318-319 | the bytes go to their address and nothing else changes |
| `CodePropObject.CodeProp.Process` | apps/codeprop/codeprop.c:312-332 | one pass of the receiving loop: store in order, NACK what is ahead, ignore what is behind |
| `CodePropObject.CodeProp.ReceiveData` | apps/codeprop/codeprop.c:291-348 | joins and continuations as OnData says, with the header rewritten by the NACK |
| `CodePropObject.CodeProp.SendTurn` | apps/codeprop/codeprop.c:202-267 | the next 32 bytes or what is left, or leaving the loop |
| `CodePropObject.CodeProp.ReceiveNack` | apps/codeprop/codeprop.c:240-260 | only a NACK for a byte not ahead of the sender rewinds it |
| `CodePropObject.CodeProp.StartBroadcast` | apps/codeprop/codeprop.c:430-438 | the stored image is broadcast under the next id from offset 0 |
| `CodePropObject.CodeProp.StoreNext` | apps/codeprop/codeprop.c:395-402 | the store holds the stream up to the new offset |
| `CodePropObject.CodeProp.ReceiveTcp` | apps/codeprop/codeprop.c:360-406 | the stored image is the len bytes behind the header for every segmentation; the loop stops at the first segment that reaches len |
| `CodePropObject.SegmentationIrrelevant` | apps/codeprop/codeprop.c:380-406 | two segmentations of one stream announce the same length |
| `CodePropAnswers.InOrderStored` | apps/codeprop/codeprop.c:312-325 | a packet in order is stored behind what is there, and not answered |
| `CodePropAnswers.AheadAnswered` | apps/codeprop/codeprop.c:326-330 | a packet ahead is answered with the offset of the first missing byte |
| `CodePropAnswers.BehindIgnored` | apps/codeprop/codeprop.c:312-330 | a packet behind is neither stored nor answered |
| `CodePropAnswers.OthersIgnored` | apps/codeprop/codeprop.c:291-295 | other images are ignored inside the loop, and no newer ones outside |
| `CodePropAnswers.NewerJoined` | apps/codeprop/codeprop.c:291-325 | a newer image is joined; from a nonzero address with NACK 0, and stored at 0 all the same |
| `CodePropAnswers.GapAnswered` | apps/codeprop/codeprop.c:326-330 | a packet ahead puts the receiver's NACK on the air and leaves it where it is |
| `CodePropAnswers.GapHeals` | apps/codeprop/codeprop.c:240-348 | that NACK and as many packets as are missing leave the whole image stored |
| `CodePropNetwork.DataKeepsPrefixIff` | apps/codeprop/codeprop.c:289-348 | a genuine packet keeps the receiver's prefix exactly when it is no late join, or repeats the image's beginning |
| `CodePropNetwork.TakeInOrder` | apps/codeprop/codeprop.c:312-325 | a packet in order extends the prefix by its data |
| `CodePropNetwork.SenderKeepsOk` | apps/codeprop/codeprop.c:202-267 | every packet sent is genuine and the offset stays within the image |
| `CodePropNetwork.StepKeepsInv` | apps/codeprop/codeprop.c:202-438 | every action keeps the invariant |
| `CodePropNetwork.RunKeepsInv` | apps/codeprop/codeprop.c:202-438 | so does every run without late joins |
| `CodePropNetwork.PropagationSafety` | apps/codeprop/codeprop.c:202-358 | every receiver stores a prefix of the one image whose id it holds, all of it outside the loop; offsets stay in range |
| `CodePropNetwork.IdsIncrease` | apps/codeprop/codeprop.c:293-307 | ids only increase, and within an id the offset only grows, in every run |
| `CodePropNetwork.SafetyFailsOnLateJoin` | apps/codeprop/codeprop.c:296-318 | the run in which the second packet is stored at address 0 |
| `CodePropNetwork.RoundProgress` | apps/codeprop/codeprop.c:240-325 | each delivered packet in order advances by 32 or to the end |
| `CodePropNetwork.RoundsComplete` | apps/codeprop/codeprop.c:240-348 | ceil((len - addr) / 32) rounds complete the image |
| `CodePropNetwork.NackRewinds` | apps/codeprop/codeprop.c:240-260 | an accepted NACK brings sender and receiver in step |
| `CodePropNetwork.TimeoutRewinds` | apps/codeprop/codeprop.c:333-345 | a waiting receiver's NACK timer brings the sender back to its offset |
| `CodePropNetwork.Progress` | apps/codeprop/codeprop.c:240-348 | from every state in which a receiver waits, its timer, its NACK and ceil((len - addr) / 32) packets leave the whole image stored |
| `Checksum.SumMeaning` | tools/tunslip.c:343-362 | ip4sum is the plain word sum reduced modulo 0xffff, 0 only for 0 |
| `Checksum.SumCongruent` | tools/tunslip.c:343-362 | congruent to the word sum, and 0 exactly when the start and every byte are 0 |
| `Checksum.SumComposes` | tools/tunslip.c:343-362 | sums compose over concatenation at even offsets |
| `Checksum.SumLoop` | tools/tunslip.c:343-362 | the loop computes that sum |
| `Checksum.ShiftedSum` | tools/tunslip.c:379-381 | adding a multiple of 0xffff keeps the verdict |
| `Checksum.ModShift` | tools/tunslip.c:379-381 | any other change of at most 0xffff turns it |
| `IpCheck.WordSumUpdate` | tools/tunslip.c:343-362 | how rewriting one word changes the sum |
| `IpCheck.RegionPutWord` | tools/tunslip.c:343-362 | how it changes the sum of any region, also one that ends inside the word |
| `IpPatch.SwapIsTimes256` | tools/tunslip.c:643-650 | byte swapping is multiplication by 256 modulo 0xffff |
| `IpPatch.PatchedSum` | tools/tunslip.c:643-650 | in either byte order the new checksum word is the old one minus the id modulo 0xffff |
| `IpPatch.PatchAcceptedExactly` | tools/tunslip.c:637-656 | for every packet check_ip accepts after the patch exactly when the words the header and payload sums cover change them by multiples of 0xffff |
| `IpPatch.PatchAcceptedIff` | tools/tunslip.c:637-656 | for packets of 12 bytes on: exactly when the header length field is not 2 or the id is 0 or 0xffff |
| `IpPatch.BigEndianKeeps` | tools/tunslip.c:643-656 | on a big-endian host no packet of the tun buffer that wants an identification is dropped after the patch |
| `IpPatch.LittleEndianDrops` | tools/tunslip.c:643-656 | on a little-endian host a packet is accepted, patched and then dropped |
| `IpPatch.StrangeExists` | tools/tunslip.c:643-656 | and here are its bytes |
| `IpCheck.HeaderWordChange` | tools/tunslip.c:364-383 | changing one header word is reported exactly unless it swaps 0x0000 and 0xffff |
| `IpMemory.CheckDependsOnPacket` | tools/tunslip.c:364-413 | for packets of header length on the verdict depends on the packet only |
| `IpMemory.RobustIff` | tools/tunslip.c:364-413 | an accepted packet is accepted in every memory exactly when header, addresses and, for a wrong UDP sum, the checksum field lie inside it |
| `IpMemory.ShortPacketsReadBehind` | tools/tunslip.c:364-413 | a 4-byte packet whose verdict depends on the memory behind it |
| `IpVerdict.CheckResults` | tools/tunslip.c:364-383 | what each of the results -1 to -4 means, in plain sums modulo 0xffff |
| `IpVerdict.PayloadResults` | tools/tunslip.c:385-412 | what each of the results -5 to -7 means |
| `IpVerdict.AcceptedMeaning` | tools/tunslip.c:364-413 | accepted exactly when version, length, header and, where its protocol asks for it, payload are right |
| `IpVerdict.NeedsIdBig` | tools/tunslip.c:643-643 | the identification is filled in when zero and DF is set; on a big-endian host that is bit 6 of byte 6 |
| `IpVerdict.NeedsIdLittle` | tools/tunslip.c:643-643 | on a little-endian host it is bit 6 of byte 7 |
| `IpVerdict.PatchMeaning` | tools/tunslip.c:643-650 | the id lies at bytes 4 and 5 in network order and only the checksum changes besides |
| `Slip.DecodeSplit` | tools/tunslip.c:454-585 | cutting the input anywhere, even after ESC, changes nothing |
| `Slip.ChunkingIrrelevant` | tools/tunslip.c:454-585 | reading chunk by chunk is reading the whole stream |
| `Slip.DecodePacket` | tools/tunslip.c:454-585 | an encoded packet is read back as one frame |
| `Slip.DecodeAll` | tools/tunslip.c:454-585 | a stream of encoded packets is read back as those packets |
| `Slip.SlipTransport` | tools/tunslip.c:454-585 | for any chunking exactly the packets sent arrive in order, valid robust ones are accepted again and handed on unchanged, and the index stays in bounds |
| `Slip.WireBytes` | tools/tunslip.c:664-676 | C0 goes out as DB DC, DB as DB DD, every other byte as itself |
| `Slip.OnlyLastIsEnd` | tools/tunslip.c:663-679 | END occurs once in an encoded packet, at its end |
| `Slip.EmptyFrame` | tools/tunslip.c:491-492 | an END with nothing before it closes no frame |
| `Slip.UnknownEscape` | tools/tunslip.c:562-582 | after ESC any byte but DC and DD stands for itself |
| `Slip.StoreMeaning` | tools/tunslip.c:472-582 | the last of 2000 places is followed by the first |
| `Slip.DispatchMeaning` | tools/tunslip.c:498-559 | where every frame goes, by its bytes: tunnel, DHCP server, address, text or nowhere |
| `SlipQueue.ApplyIsFifo` | tools/tunslip.c:587-625 | one send or flush refines a FIFO step |
| `SlipQueue.QueueIsFifo` | tools/tunslip.c:587-625 | under every interleaving and every partial or refused write, wire plus pending is everything sent, in order |
| `TunSlip.SerialReader.constructor` | tools/tunslip.c:454-462 | the reader starts empty |
| `TunSlip.SerialReader.StoreByte` | tools/tunslip.c:472-582 | a byte is stored, a full buffer starts over |
| `TunSlip.SerialReader.ReadSerial` | tools/tunslip.c:454-585 | one call reads what is there as Feed says |
| `TunSlip.SerialWriter.constructor` | tools/tunslip.c:587-589 | the queue starts empty |
| `TunSlip.SerialWriter.SendByte` | tools/tunslip.c:590-597 | a byte is appended unless the buffer is full |
| `TunSlip.SerialWriter.FlushBuffer` | tools/tunslip.c:605-625 | what is written is the front of what was pending |
| `TunSlip.SerialWriter.SendEscaped` | tools/tunslip.c:664-676 | END and ESC go out escaped |
| `TunSlip.SerialWriter.SendPacket` | tools/tunslip.c:663-679 | the packet's encoding is appended whole, if it fits |
| `TunSlip.SerialWriter.StoreWord` | tools/tunslip.c:643-650 | one word of the header is rewritten |
| `TunSlip.SerialWriter.PatchHeader` | tools/tunslip.c:643-650 | identification and checksum are patched in place and the next id is taken |
| `TunSlip.SerialWriter.AddComplement` | tools/tunslip.c:646-650 | the end-around carry in host byte order |
| `TunSlip.SerialWriter.Prepare` | tools/tunslip.c:634-656 | the two checks and the patch between them |
| `TunSlip.SerialWriter.WriteToSerial` | tools/tunslip.c:627-681 | an accepted packet is queued whole and still passes check_ip; it is dropped exactly when check_ip refuses it or the patch spoils it |
| `TunSlip.SerialLine` | tools/tunslip.c:454-681 | queue, partial writes, wire and chunked reads together: the packets queued are the packets read |
| `DhcpRelay.ParseEncoded` | tools/tunslip.c:260-297 | encoded options parse to themselves |
| `DhcpRelay.EmittedIsFilter` | tools/tunslip.c:260-292 | over a well-formed list the copying loop emits the encoding of the filtered options, whatever stops it |
| `DhcpRelay.CopyOptions` | tools/tunslip.c:260-297 | the loop itself, for every option area and every number of bytes received |
| `DhcpRelay.OutputFiltered` | tools/tunslip.c:260-297 | what is sent parses to the filtered list: five kinds kept, DNS cut to one server, the rest dropped |
| `DhcpRelay.OutputUnclosed` | tools/tunslip.c:260-297 | a list no END closes is filtered and not closed |
| `DhcpRelay.FilterKinds` | tools/tunslip.c:266-291 | kinds 1, 3, 51, 53 and 54 are kept, of kind 6 the first address, of all others nothing, in order |
| `DhcpRelay.ShortDnsReadsOn` | tools/tunslip.c:280-285 | a DNS option without an address takes the END and what lies behind it |
| `DhcpRelay.PadSwallows` | tools/tunslip.c:260-297 | a pad byte in front loses the message type |
| `DhcpRelay.PacketAccepted` | tools/tunslip.c:298-329 | every packet so built passes check_ip and carries a UDP checksum |
| `DhcpRelay.RelayToClient` | tools/tunslip.c:228-330 | the whole relayed reply for every message received, byte by byte: where it goes, headers, fixed part with one more hop and no gateway, cookie, options sent on, valid checksums |
| `DhcpRequest.SeenByServerIff` | tools/tunslip.c:179-217 | the server finds the client's options and the relay's exactly when END was the last byte |
| `DhcpRequest.PaddingHides` | tools/tunslip.c:194-217 | with one byte behind END the server finds only the client's options |
| `DhcpRequest.ExtendOptions` | tools/tunslip.c:194-217 | the writes over and behind the last byte |
| `DhcpRequest.RelayToServer` | tools/tunslip.c:161-224 | the whole forwarded request byte by byte: one more hop, broadcast bit, gateway, zeros, the relay's options over its last byte |
| `CoapCodec.InsertAt` | apps/rest-coap/coap-server.c:186-204 | an option goes before the first with a higher number |
| `CoapCodec.InsertSorted` | apps/rest-coap/coap-server.c:186-204 | insertion keeps the list sorted |
| `CoapCodec.InsertValues` | apps/rest-coap/coap-server.c:186-204 | insertion is stable |
| `CoapCodec.SetOptionsSorted` | apps/rest-coap/coap-server.c:176-220 | after any calls the list is sorted and a permutation of what was set |
| `CoapCodec.SetOptionsStable` | apps/rest-coap/coap-server.c:176-220 | and holds each number's values in the order set |
| `CoapCodec.GetReturnsEarliest` | apps/rest-coap/coap-server.c:222-237 | a number reads as its earliest value set, or as nothing |
| `CoapCodec.FirstOption` | apps/rest-coap/coap-server.c:73-106 | an encoded option is read back exactly when its delta and length fit |
| `CoapCodec.OptionsRoundTripIff` | apps/rest-coap/coap-common.c:77-105 | the option list is read back exactly when all options fit |
| `CoapCodec.RoundTripIff` | apps/rest-coap/coap-common.c:57-113 | parse_message inverts serialize_packet exactly on packets of at most 15 options that fit |
| `CoapCodec.BuiltPacketsRoundTrip` | apps/rest-coap/coap-server.c:176-220 | every packet built by up to 15 calls with numbers up to 15 and lengths up to 270 comes back |
| `CoapCodec.HeaderLayout` | apps/rest-coap/coap-common.c:63-73 | the four header bytes of a packet of fewer than 16 options |
| `CoapCodec.HeaderBits` | apps/rest-coap/coap-common.c:63-65 | of any packet: every bit of the first byte, the counter's high bits or'ed into version and type |
| `CoapCodec.OptionLayout` | apps/rest-coap/coap-common.c:78-103 | the bytes of an option, whatever its number and length |
| `CoapPacket.CoapPacket.InitPacket` | apps/rest-coap/coap-common.c:41-55 | an empty packet |
| `CoapPacket.AllocateHeaderOption` | apps/rest-coap/coap-server.c:159-185 | a new node with its value, no room, or a block too small for them |
| `CoapPacket.CoapPacket.FindPlace` | apps/rest-coap/coap-server.c:186-194 | the loop stops at the first higher number |
| `CoapPacket.CoapPacket.Splice` | apps/rest-coap/coap-server.c:196-204 | the pointer updates keep the list linked and put the node in its place |
| `CoapPacket.CoapPacket.SetOption` | apps/rest-coap/coap-server.c:176-220 | the list becomes the stable sorted insertion, or nothing changes when allocation fails, or the value overruns its block |
| `CoapPacket.CoapPacket.GetOption` | apps/rest-coap/coap-server.c:222-237 | the first of the counted options with the number, or none |
| `CoapPacket.CoapPacket.SetPayload` | apps/rest-coap/coap-server.c:280-290 | the payload is set, cleared when allocation fails, or overruns its block |
| `CoapPacket.CoapPacket.WriteOptions` | apps/rest-coap/coap-common.c:77-105 | the option loop appends the encoded options |
| `CoapPacket.CoapPacket.SerializePacket` | apps/rest-coap/coap-common.c:57-113 | the buffer holds the packet's serialisation and is untouched behind it |
| `CoapPacket.CoapPacket.ReadNext` | apps/rest-coap/coap-server.c:73-106 | one round of the parsing loop reads and links one option |
| `CoapPacket.CoapPacket.ReadOptions` | apps/rest-coap/coap-server.c:63-107 | the loop builds the parsed list and leaves the rest |
| `CoapPacket.CoapPacket.ParseMessage` | apps/rest-coap/coap-server.c:46-119 | header, options, last path and query options and payload, or an empty packet when allocation fails |
| `CoapPacket.CoapPacket.ParsedValue` | apps/rest-coap/coap-server.c:46-119 | the packet so built is the one the codec's parser gives |
| `CoapPacket.LastOfMeaning` | apps/rest-coap/coap-server.c:93-99 | url and query are those of the last option with the number |
| `CoapPacket.PayloadMeaning` | apps/rest-coap/coap-server.c:113-119 | the payload is what lies between the options and the end of the message |
| `CoapPacket.Layout` | apps/rest-coap/coap-server.c:73-106 | the parsed options lie one behind the other in the buffer |
| `CoapPacket.Transmit` | apps/rest-coap/coap-common.c:57-113 | a packet serialised by one node and parsed by another is the same packet |
| `CoapHeaders.BlockFields` | apps/rest-coap/coap-server.c:344-367 | number modulo 2^28, more flag and exponent are recovered from the block word |
| `CoapHeaders.BlockLayout` | apps/rest-coap/coap-server.c:354-361 | three bits of size, one of more, the number above |
| `CoapHeaders.LongValues` | apps/rest-common/rest-util.c:67-78 | a value of 257 to 260 bytes reads as its first 1 to 4 |
| `CoapHeaders.ExponentMeaning` | apps/rest-coap/coap-server.c:354-361 | the exponent stands for the size rounded down to a power of two, exactly for 16 to 128 |
| `CoapHeaders.HeaderOverTheWire` | apps/rest-coap/coap-server.c:176-237 | a header set once is what the receiver of the packet reads |
| `CoapHeaders.BlockOverTheWire` | apps/rest-coap/coap-server.c:335-367 | the receiver reads the block option the sender set |
| `CoapHeaders.LifetimeOverTheWire` | apps/rest-coap/coap-server.c:311-333 | the receiver reads every 32-bit lifetime |
| `CoapHeaders.SetHeaderBlock` | apps/rest-coap/coap-server.c:354-367 | the block option with the floor logarithm of size / 16 is inserted |
| `CoapHeaders.GetHeaderBlock` | apps/rest-coap/coap-server.c:335-352 | the first block option is taken apart |
| `CoapHeaders.SetHeaderLifetime` | apps/rest-coap/coap-server.c:326-333 | the lifetime option is inserted |
| `RestInts.VariableIntRoundTrip` | apps/rest-common/rest-util.c:67-107 | read_int inverts write_variable_int for every 32-bit value |
| `RestInts.VariableIntMinimal` | apps/rest-common/rest-util.c:94-107 | no shorter byte string reads as the value |
| `RestInts.ReadMeaning` | apps/rest-common/rest-util.c:67-78 | of 1 to 4 bytes the first counts most |
| `RestInts.WriteMeaning` | apps/rest-common/rest-util.c:81-93 | a fixed-size write reads back as the value modulo 256^size |
| `RestInts.OtherSizes` | apps/rest-common/rest-util.c:67-93 | other sizes read as 0 and write nothing |
| `RestInts.Log2` | apps/rest-common/rest-util.c:109-118 | the floor logarithm, 0 for 0 |
| `RestInts.Log2Unique` | apps/rest-common/rest-util.c:109-118 | the logarithm is unique |
| `RestQuery.Decode` | apps/rest-common/rest-util.c:8-33 | as much of the decoded value as fits; the result is 1 exactly when all did and no escape straddles the end |
| `RestQuery.PercentRoundTrip` | apps/rest-common/rest-util.c:8-33 | decoding undoes percent-encoding |
| `RestQuery.PlainStretch` | apps/rest-common/rest-util.c:15-28 | without '%' every byte stands for itself, but '+' for a space in a form |
| `RestQuery.StrayPercent` | apps/rest-common/rest-util.c:16-28 | a '%' that two hex digits do not follow stands for itself |
| `RestQuery.FormRoundTrip` | apps/rest-common/rest-util.c:8-33 | decoding undoes form encoding with plain letters and digits, '+' for spaces, and hex digits of either case |
| `RestQuery.SearchIsLookup` | apps/rest-common/rest-util.c:48-62 | searching segment by segment is splitting at '&' and looking up |
| `RestQuery.FindEnd` | apps/rest-common/rest-util.c:54-58 | a value ends at the next '&' |
| `RestQuery.Find` | apps/rest-common/rest-util.c:48-62 | the position loop finds the place of the first segment whose key is the name |
| `RestQuery.GetVariable` | apps/rest-common/rest-util.c:36-65 | the decoded value of that segment read in its own place, or an empty output and 0 |
| `BumpBuffer.RoundedLargeEnough` | apps/rest-common/buffer.c:41-48 | rounding gives an even size, large enough exactly unless 0xffff was asked for |
| `BumpBuffer.AllocateMeaning` | apps/rest-common/buffer.c:41-55 | a request succeeds exactly when the even size fits with a byte to spare |
| `BumpBuffer.FreshRoom` | apps/rest-common/buffer.c:17-55 | a new buffer has room from its start, a refused or deleted one has none |
| `BumpBuffer.AllocationsDisjoint` | apps/rest-common/buffer.c:17-55 | over every run live blocks are even-aligned, inside the buffer and disjoint; no buffer has size 0 |
| `BumpBuffer.WrapOverlaps` | apps/rest-common/buffer.c:41-52 | asking for 0xffff bytes makes the next block overlap |
| `BumpBuffer.Buffer.DeleteBuffer` | apps/rest-common/buffer.c:17-26 | the buffer is gone and has size 0 |
| `BumpBuffer.Buffer.InitBuffer` | apps/rest-common/buffer.c:28-39 | a new empty buffer, or none |
| `BumpBuffer.Buffer.AllocateBuffer` | apps/rest-common/buffer.c:41-55 | the next even block, or failure without change |
| `Base64.SpacesIgnored` | apps/shell/shell-base64.c:90-92 | white space anywhere changes nothing |
| `Base64.SplitIrrelevant` | apps/shell/shell-base64.c:136-141 | feeding two parts is feeding their concatenation |
| `Base64.FourSextets` | apps/shell/shell-base64.c:101-107 | four sextets determine the three bytes whatever the accumulator held |
| `Base64.KnownEncodings` | apps/shell/shell-base64.c:69-85 | the encoder the decoder is compared with gives the examples of RFC 4648 |
| `Base64.StrangerIsZero` | apps/shell/shell-base64.c:69-85 | a character outside the alphabet counts as 'A' |
| `Base64.DecodeEncoded` | apps/shell/shell-base64.c:87-116 | decoding an encoding appends its bytes as far as there is room |
| `Base64.DecodesAnySplit` | apps/shell/shell-base64.c:118-142 | for every x, every white space and every split the output is the first min(57, length) bytes of x |
| `Base64.DecoderState.AddOne` | apps/shell/shell-base64.c:87-116 | one character moves the decoder as AddChar says, and the result tells whether it wants more |
| `Base64.DecoderState.AddPart` | apps/shell/shell-base64.c:136-141 | the feeding loop |
| `Base64.DecoderState.Dec64` | apps/shell/shell-base64.c:126-143 | one shell input is decoded whole |

## Left out

- Deluge: the channel over-approximates unicast and timers (any sent message may reach any node, any
  timer may expire at any time); the object's file is whole pages; object ids, LEDs and the page CRC
  (stored, never compared) are not modelled; all nodes have one page count and content safety takes
  at most 255 pages.
- Deluge: `malloc` failure is a flag of the delivered profile; after one, a profile longer than the old table (which the source then reads past) is not modelled. A page table that shrinks is modelled as truncated. A profile is as long as send_profile makes it; the size limit of a radio packet is not modelled.
- Deluge: clock readings are taken not to go back.
- DelugeProgress.ObjectCompletes: says that a completing run exists from every such state (and NeverStuck from every reachable one), not that every fair run completes; at most 128 pages, because the transmit cursor is an int8.
- Code propagation: 16-bit addresses are taken not to wrap, there is one sender, and an image arrives in the sender's store in one step of the network model (the segment loop is CodePropObject.CodeProp.ReceiveTcp).
- CodePropObject.CodeProp.ReceiveTcp: a first segment shorter than the header, which the source aborts but then goes on to read, is not modelled.
- DhcpRelay.RelayToClient: memory behind what is given reads as 0, and options that would not fit the 312-byte area sent are not modelled, since the source does not stop there.
- DhcpRequest.RelayToServer: messages shorter than the fixed part, and requests too long for the 312-byte option area, are not modelled: the source copies past them.
- TunSlip: a full output buffer ends the program and is an outcome here; the serial line, the tun device, address configuration and printing are not modelled.
- Slip.SlipTransport: that check_ip accepts a packet again is stated for the packets that are accepted in every memory, which `RobustIff` characterises exactly; for others it depends on what the buffer held.
- CoapPacket.CoapPacket.ParseMessage: the '?' split of the path, which searches past the option's length, is not modelled; options that run behind the memory given are excluded, since the source has no boundary control.
- CoapPacket.CoapPacket.SerializePacket: follows `next` to the end and is stated for lists built by coap_set_option; the last `next` of a parsed list is unspecified.
- CoapPacket.CoapPacket.SetOption: after an overrun (values of 65527 bytes and more) nothing is said of the packet; SetPayload likewise for 65535 bytes.
- CoapCodec: option values and payloads are byte strings, not pointers into shared memory.
- Base64: an empty shell input, which ends the command.
- P2P-RPL and the rest of core/net, Rime, uIP, cfs, ctimer, crc16 and the ELF loader: reached only as parameters (messages, timeouts, an unknown CRC function).
- tools/tunslip6.c, tools/tapslip6.c, apps/codeprop/tcp_loader.c and the other variants of the same transfers: they repeat what is modelled.
- Shell commands, user interface, web, mail, FTP, IRC, servreg-hack, powertrace and collect-view: state tables and printing that would only add easy members.
