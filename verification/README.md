# ZPR core: packet codec, classifier, tables and connection managers

This project models the parts of the ZPR adapter and node library that are hardest to get
right, and proves laws about them that hold for every packet, every run and every
interleaving.

| part | files | source |
|---|---|---|
| checksums, five-tuple classifier | `NetDefs`, `InternetChecksum`, `Classifier`, `ClassifierInPlace`, `ClassifierTheorems`, `Acceptance` | `adapter/ph/src/classifier.rs` |
| header compression and expansion, in one packet buffer | `PacketBuffer`, `HeaderCodec`, `WireFormat`, `CodecInPlace`, `CodecTheorems`, `RoundTrip`, `Expansion`, `ExpansionFaults`, `Tunnel` | `adapter/ph/src/compress.rs`, `packet.rs`, `fastpath.rs` |
| batched I/O | `BatchIo`, `ResetTolerantReceive` | `adapter/ph/src/batch_io.rs` |
| endpoint lookup table and transaction ids | `EndpointTable`, `EndpointTableRuns`, `TxnManager` | `adapter/ph/src/adapter_tables.rs`, `mgmt/txn_mgr.rs` |
| AAA address pool | `AddressPool` | `adapter/ph/src/address_pool.rs` |
| visa-service connection | `VsConn`, `VsConnLoops`, `VsConnTheorems`, `VsConnDiscipline`, `VsConnPhases` | `libnode2/src/vsconn.rs` |
| OIDC agent: refresh tokens, HTTP request reader | `TokenStore`, `TokenStoreRuns`, `HttpReader` | `adapter/cli/src/oidc.rs` |

`dafny verify dfyconfig.toml` checks the whole project.

## How the source is represented

- Code that edits state in place is a class with methods (`Packet`, `TupleRecord`,
  `EndpointLookupTable`, `TxnMgr`, `Pool`, `Connection`, `CliAuthAgent`) or a method with a
  loop; each is proved against a function of its inputs, and the laws are lemmas about that
  function or about the state machine it steps through.
- `Packet` keeps its bytes in an array. Its ghost field `body` is the sequence of bytes between
  headroom and tailroom, tied to the array by `Valid`. The metadata that the source stores in
  the front of the buffer are fields.
- Bytes and 16-bit words are bounded integers. Shifts and masks are written with `/` and `%`;
  `as u16` truncations are `AsU16`.
- A slice index out of range in the classifier is the outcome `Panic`, so that its absence can be
  stated.
- `ip4sum` and the L4 checksum helpers are external; they are modelled by RFC 1071 section 1,
  with the pseudo-headers of RFC 9293 section 3.1 and RFC 8200 section 8.1.
- Kernel completions, socket outcomes, RPC outcomes, timers, the random start of the address
  search, and the identity provider's answers are parameters or input scripts.
- Concurrency: the endpoint table's operations take one step per lock they hold; the connection
  manager takes one step per `select!` branch; the auth agent takes one step between two awaits.

## Where the code and its comments differ

- `classifier.rs:98-100` says that `ignore_bad_checksums` is ignored, and checksums are never
  validated, when `ignore_truncated_packets` is false. The code does the opposite (as the comment
  two lines above says): checksums are validated when both flags are off. The model follows the
  code.
- Round trip. A valid IPv4-header or TCP checksum of 0xFFFF comes back as 0x0000, and a packet
  with an extension header that was skipped comes back with a different protocol field.
  `RoundTripIff` is the exact condition over every accepted packet; `RoundTripCanonical`,
  `AllOnesChecksumNotRestored` and `ExtensionHeaderNotRestored` are the consequences.
- IPv4 packets and the end-to-end MAC. `actor_output` takes one off the TTL after the packet was
  classified and does not update the header checksum (`fastpath.rs:284`, `1110-1143`), and it
  hashes the packet in that state. The receiving side hashes the expanded packet, whose header
  checksum `expand` has recomputed. So for every IPv4 packet the two sides hash different bytes,
  and the comparison at `fastpath.rs:591` fails unless the truncated hashes collide. `SidesAgreeIff`
  is the exact law, `Ipv4SidesDiffer` a concrete packet. The packets that compression sees are
  therefore not the ones the classifier accepted: the codec's own laws are stated for both.
- `classify` panics on a packet that ends right behind its network header when that header
  announces ICMP, ICMPv6 or an extension header (`classifier.rs:360`). `ClassifyPanicsIff` is the
  exact condition.
- `expand` runs before the MAC is compared and asserts its way through the bytes.
  `ExpandPanicsIff` says which byte strings and headrooms it panics on.
- `is_invalid_grant` searches the error text for `(invalid_grant)`, and `oauth_error_code` keeps
  parentheses, so a code that only mentions `invalid_grant` in parentheses drops the stored token.
- `remove_by_tether_id` says that pending entries never match. It finds and removes in two steps;
  an entry that was replaced by a pending one in between is removed. `WithdrawsIff` is the exact
  condition, `PendingWithdrawn` a run.
- `insert_pending` overwrites the index entry of a duplicate transaction before it reports the
  duplicate. The two maps stay inverse exactly if the result is not that one.
- When the submission queue is full, the io_uring loop has already taken one more item off
  the iterator than it submits. `BatchIo.Submit` says so in `consumed`.
- A pool refuses its own addresses unless its network has 0x0aaa in segment 3.
- `read_http_request`: the limit on the head is checked before each read, so a head that ends
  between 65538 and 66560 bytes is accepted or refused depending on how the bytes arrive.
  Everywhere else the outcome depends on the bytes alone.
- Refresh tokens. A token that arrives in a success response without an `id_token` is discarded
  with the response, so the agent keeps one that the provider may have replaced. With two silent
  requests at once, a refusal of the old token drops the rotated one.

## Model

| member | source | states |
|---|---|---|
| InternetChecksum.DeferredCarriesAgree | adapter/ph/src/classifier.rs:187-189 | summing all words and folding at the end equals end-around carry at every word |
| InternetChecksum.ChecksumUnique | adapter/ph/src/compress.rs:99-104 | over every byte string, a word in an aligned field makes the checksum valid if and only if it is the computed one, or 0xFFFF where that is 0x0000 |
| InternetChecksum.ComputedNotAllOnes | adapter/ph/src/compress.rs:99-104 | the computed checksum is 0xFFFF exactly for an all-zero string |
| InternetChecksum.L4ChecksumUnique | adapter/ph/src/compress.rs:224-241 | the same uniqueness law for a segment behind its pseudo-header |
| InternetChecksum.Ipv4L4Checksum | adapter/ph/src/compress.rs:230-237 | the checksum of an IPv4 segment of less than 2^16 bytes, in words: both addresses, protocol, length, segment |
| InternetChecksum.Ipv6L4Checksum | adapter/ph/src/classifier.rs:463-471 | the same for IPv6, with sixteen address words and the length in two |
| InternetChecksum.OddByteIsHigh | adapter/ph/src/classifier.rs:367 | a last odd byte counts as the high byte of a word |
| NetDefs.IsV4Iff | adapter/ph/src/classifier.rs:228-236 | an address is taken for an IPv4 one if and only if it is the mapping of its last four bytes |
| ClassifierInPlace.TupleRecord.ClassifyL3 | adapter/ph/src/classifier.rs:139-461 | outcome and all tuple fields, also after an error, are those of the classification function, for every packet |
| ClassifierInPlace.TupleRecord.Ipv4Packet | adapter/ph/src/classifier.rs:157-217 | the same for an IPv4 packet |
| ClassifierInPlace.TupleRecord.Ipv6Packet | adapter/ph/src/classifier.rs:219-263 | the same for an IPv6 packet |
| ClassifierInPlace.TupleRecord.NextHeader | adapter/ph/src/classifier.rs:265-288 | the same for the chain of next headers |
| ClassifierInPlace.TupleRecord.SkipV6Option | adapter/ph/src/classifier.rs:290-313 | skipping an options or routing header and going on is the chain function at that header |
| ClassifierInPlace.TupleRecord.SkipAuthHeader | adapter/ph/src/classifier.rs:315-329 | the same for an authentication header |
| ClassifierInPlace.TupleRecord.Fragment | adapter/ph/src/classifier.rs:331-353 | the same for a fragment header |
| ClassifierTheorems.WalkBounded | adapter/ph/src/classifier.rs:265-353 | at most one call per 8 bytes and one more; each call leaves 8 bytes behind; a call after a skip has 8 bytes or protocol 59; the last protocol is the recorded one |
| Acceptance.ChainLands | adapter/ph/src/classifier.rs:265-329 | skipping options, routing and authentication headers by their own lengths, in units of 8 and 4 bytes, changes nothing: the header where the chain ends decides, and a chain whose headers do not fit is a length error or a panic |
| Acceptance.FragmentDecides | adapter/ph/src/classifier.rs:331-353 | a fragment header is the first fragment if and only if its offset is 0, whatever follows |
| Acceptance.AcceptedIff | adapter/ph/src/classifier.rs:139-461 | for every packet and option, in bytes: accepted if and only if version, lengths, fragment field, header sum and addresses are right, the extension headers fit, and the header behind them has its length and its checksum right (TCP and ICMPv6 with the pseudo-header, ICMP without, UDP unless the field is 0) |
| Acceptance.AcceptedTuple | adapter/ph/src/classifier.rs:139-461 | then the tuple holds the packet's addresses, the protocol where the chain ends, and from there the ports of TCP and UDP, type and code of ICMP and ICMPv6, or zeros |
| Acceptance.RefusedIff | adapter/ph/src/classifier.rs:157-461 | for every packet and option: exactly which packets are refused for a mapped address, a jumbogram, a header sum or a segment sum |
| Acceptance.FragmentIff | adapter/ph/src/classifier.rs:157-353 | for every packet and option: exactly which packets are first and later fragments, by IPv4's fragment field or a fragment header |
| Acceptance.NotIpIff | adapter/ph/src/classifier.rs:139-155 | a packet is not IP if and only if its version is neither 4 nor 6 |
| ClassifierTheorems.PanicsIffEntryTooShort | adapter/ph/src/classifier.rs:265-391 | an out-of-range read happens if and only if the entry call's own header is too short, never later on the chain |
| ClassifierTheorems.ClassifyPanicsIff | adapter/ph/src/classifier.rs:157-391 | for every packet and option: `classify` reads out of range if and only if the network header passes its checks and fewer bytes follow than the first reads of its protocol take; eight bytes are always enough |
| ClassifierTheorems.BareIcmpPanics | adapter/ph/src/classifier.rs:355-361 | valid 20-byte IPv4 headers announcing ICMP, such as the one with checksum 0x7AEA, panic |
| ClassifierTheorems.NextHeaderPrefix | adapter/ph/src/classifier.rs:265-455 | prefix stability of the header chain, both directions |
| ClassifierTheorems.PrefixStable | adapter/ph/src/classifier.rs:157-455 | a prefix of an accepted packet classifies identically under the truncation option if it holds all headers, and is never accepted if it does not |
| PacketBuffer.Packet.Advance | adapter/ph/src/packet.rs:672-679 | drops bytes at the front, end of the body unmoved |
| PacketBuffer.Packet.AllocZeroedHeadroom | adapter/ph/src/packet.rs:562-571 | zero bytes in front of the old body |
| PacketBuffer.Packet.PushHeader | adapter/ph/src/packet.rs:588-599 | the header's bytes in front of the old body |
| PacketBuffer.Packet.PushU16 | adapter/ph/src/packet.rs:608-610 | the word in network order in front of the old body |
| PacketBuffer.Packet.ShrinkBy | adapter/ph/src/packet.rs:625-629 | drops bytes at the end, front unmoved |
| CodecInPlace.CompressInPlace | adapter/ph/src/compress.rs:288-299 | the body becomes the compressed packet; its end stays, its start never moves below where it began |
| CodecInPlace.CompressIpv4InPlace | adapter/ph/src/compress.rs:24-61 | the same for IPv4, including fragment offset and flags |
| CodecInPlace.CompressIpv6InPlace | adapter/ph/src/compress.rs:107-129 | the same for IPv6 |
| CodecInPlace.CompressL4InPlace | adapter/ph/src/compress.rs:155-165 | dispatch on the protocol |
| CodecInPlace.CompressTcpInPlace | adapter/ph/src/compress.rs:179-199 | elided ports and checksum are gone, every other byte is kept |
| CodecInPlace.CompressUdpInPlace | adapter/ph/src/compress.rs:244-263 | elided ports and length are gone, every other byte is kept |
| CodecInPlace.ExpandInPlace | adapter/ph/src/compress.rs:302-308 | the body becomes the expanded packet, end unmoved |
| CodecInPlace.ExpandIpv4InPlace | adapter/ph/src/compress.rs:63-105 | the same for IPv4 with recomputed length and checksum |
| CodecInPlace.ExpandIpv6InPlace | adapter/ph/src/compress.rs:131-153 | the same for IPv6 with recomputed length |
| CodecInPlace.ExpandL4InPlace | adapter/ph/src/compress.rs:167-177 | dispatch on the protocol, and the headroom it takes |
| CodecInPlace.ExpandTcpInPlace | adapter/ph/src/compress.rs:201-242 | ports from packet or tuple, checksum recomputed over the pseudo-header |
| CodecInPlace.ExpandUdpInPlace | adapter/ph/src/compress.rs:265-285 | ports from packet or tuple, length recomputed |
| WireFormat.CompressedLayout | adapter/ph/src/compress.rs:24-299 | for every packet and mode, the compressed packet byte by byte: IHL, offset bit and flags, DSCP, identification, offset if any, TTL; or the first four bytes and the hop limit; then the segment |
| WireFormat.CompressedSegmentLayout | adapter/ph/src/compress.rs:155-263 | the ports that the tether does not name, source first; then TCP without bytes 16 and 17, UDP without bytes 4 and 5, others unchanged |
| CodecTheorems.AcceptedFacts | adapter/ph/src/classifier.rs:157-288 | what acceptance guarantees about the header fields the codec relies on |
| CodecTheorems.ExpandCompressedSegment | adapter/ph/src/compress.rs:155-285 | field by field, what a compressed segment expands to, in all four port modes |
| CodecTheorems.SegmentSurvivesIff | adapter/ph/src/compress.rs:155-285 | a segment comes back unchanged if and only if ports, length and checksum are the ones expansion fills in |
| CodecTheorems.CompressedFields | adapter/ph/src/compress.rs:63-83 | what is read back from a compressed IPv4 header, of five or seven bytes, are the packet's own fields, fragment offset and flags included |
| RoundTrip.RoundTripIff | adapter/ph/src/compress.rs:24-308 | for every accepted packet and every mode, expansion after compression is defined and is the identity if and only if `Survives` holds of the header fields |
| RoundTrip.Ipv4RoundTripIff | adapter/ph/src/compress.rs:24-105 | the same for every IPv4 packet with a valid header sum, fragments with an offset included |
| RoundTrip.FragmentRestoredIff | adapter/ph/src/compress.rs:24-105 | a fragment with an offset, of a protocol other than TCP and UDP, comes back if and only if its header checksum is not 0xFFFF |
| RoundTrip.RoundTripCanonical | adapter/ph/src/compress.rs:24-308 | without skipped extension headers (and IHL 5 for TCP and UDP), the packet comes back byte for byte with checksum fields of 0xFFFF turned to 0x0000 |
| RoundTrip.DomainSurvivesIff | adapter/ph/src/compress.rs:24-308 | on that domain the packet is restored exactly if neither summed field is 0xFFFF |
| RoundTrip.HeaderSumCanonical | adapter/ph/src/compress.rs:99-104 | the recomputed header checksum of an accepted packet is the stored one, canonically written |
| RoundTrip.TcpSumCanonical | adapter/ph/src/compress.rs:224-241 | the same for the TCP checksum |
| RoundTrip.CompressKeepsTrailer | adapter/ph/src/compress.rs:288-299 | for every trailer, compressing packet and trailer is compressing the packet, then the trailer |
| RoundTrip.RoundTripWithTrailer | adapter/ph/src/compress.rs:24-308 | taking the trailer off again and expanding restores the packet |
| RoundTrip.ExtensionHeaderNotRestored | adapter/ph/src/compress.rs:131-153 | a concrete accepted packet with an extension header that does not come back |
| RoundTrip.AllOnesChecksumNotRestored | adapter/ph/src/compress.rs:99-104 | a concrete accepted packet with header checksum 0xFFFF that does not come back |
| Expansion.ExpandedTcp | adapter/ph/src/compress.rs:201-242 | an expanded segment has a valid checksum, the right ports and the carried data offset |
| Expansion.ExpansionWellFormed | adapter/ph/src/compress.rs:63-105 | an expanded TCP packet is classified OK if and only if the compressed bytes were legal, and then with the tuple's addresses, protocol and elided ports |
| ExpansionFaults.ExpandPanicsIff | adapter/ph/src/compress.rs:63-308 | expanding any bytes panics if and only if bytes or headroom are short, with the underflow of the UDP length trapped or not; otherwise it takes exactly the growth off the headroom |
| ExpansionFaults.ExpandTotalIff | adapter/ph/src/fastpath.rs:564-578 | with the underflow trapped, that is exactly when the demands of the in-place expansion are not met |
| ExpansionFaults.NothingToExpandPanics | adapter/ph/src/fastpath.rs:564-578 | a body that is nothing but its MAC leaves no bytes to expand, and expanding those panics |
| Tunnel.GrowthRestores | adapter/ph/src/compress.rs:302-308 | for every packet that comes out, expansion needs exactly the room that compression freed |
| Tunnel.DecrementTtl | adapter/ph/src/fastpath.rs:1110-1143 | byte 8 of IPv4 or byte 7 of IPv6 is one less unless it is 0, no other byte changes; expiry is reported if and only if that byte is then 0 |
| Tunnel.TtlBreaksSum | adapter/ph/src/fastpath.rs:1113-1126 | a valid IPv4 header with one taken off its TTL is not valid |
| Tunnel.CarriedPortsUnread | adapter/ph/src/compress.rs:201-285 | expansion reads a port of the tuple only where the mode elides it |
| Tunnel.SidesAgreeIff | adapter/ph/src/fastpath.rs:254-352 | for every accepted packet whose TTL lasts and every receiver tuple that agrees but for the ports the packet carries: the bytes hashed before compression and after expansion are equal if and only if the packet is IPv6 and survives the codec; never for IPv4 |
| Tunnel.DomainSidesAgreeIff | adapter/ph/src/fastpath.rs:254-352 | without extension headers and IPv4 options: if and only if IPv6 with a TCP checksum, if any, other than 0xFFFF |
| Tunnel.Ipv4ComesOutSummed | adapter/ph/src/fastpath.rs:574-578 | what comes out for IPv4 without options or extension headers before TCP and UDP: the packet as sent, with the header checksum that belongs to it and a TCP checksum of 0xFFFF turned to 0x0000 |
| Tunnel.Ipv4SidesDiffer | adapter/ph/src/fastpath.rs:284-337 | accepted bare IPv4 packets, such as the one with checksum 0x79EE, that survive the codec and are hashed differently on the two sides |
| Tunnel.Transit | adapter/ph/src/fastpath.rs:547-598 | decrement, hash, compress, append; strip, expand, hash, compare: dropped for its TTL if and only if that was at most 1; else delivered if and only if it is IPv6 and survives the codec, or the truncated hashes of the differing bytes collide; a surviving IPv6 packet comes out with its hop limit one less and no other byte changed; the body has its place in the buffer back |
| BatchIo.Submit | adapter/ph/src/batch_io.rs:657-713 | every submitted item in its slot, at most the capacity, one item too many taken when full |
| BatchIo.ReorderingIsBijective | adapter/ph/src/batch_io.rs:715-773 | any reordering of the completions names each operation once, with its own outcome |
| BatchIo.PlaceStep | adapter/ph/src/batch_io.rs:729-770 | one more completion, wherever it falls, takes the vector to that of one more outcome |
| BatchIo.Collect | adapter/ph/src/batch_io.rs:715-773 | for every permutation of the completions: earlier results untouched, slot i holds what was made of operation i's own state and byte count, or its own errno; length one past the last non-EAGAIN, each state taken at most once |
| BatchIo.DoBatchOp | adapter/ph/src/batch_io.rs:657-773 | submission and collection together, independent of completion order: slot i holds what was made of item i and its byte count, or its errno |
| BatchIo.Unbatched | adapter/ph/src/batch_io.rs:1052-1075 | appends exactly the successes before the first error; fails if and only if the first outcome is an error, with its errno; else returns the number appended |
| BatchIo.EnginesAgreeIff | adapter/ph/src/batch_io.rs:1052-1075 | both engines append the same results if and only if only would-block follows the first failure |
| BatchIo.EngineReturns | adapter/ph/src/batch_io.rs:657-773 | k successes then would-block: both return k, differing only for k = 0 |
| ResetTolerantReceive.RecvRetryingConnreset | adapter/ph/src/batch_io.rs:1459-1490 | up to 65 attempts through resets, then would-block; any other outcome is returned at once |
| ResetTolerantReceive.StopUnique | adapter/ph/src/batch_io.rs:1495-1546 | for every stream of outcomes there is one place where a batch stops |
| ResetTolerantReceive.RecvFromBatch | adapter/ph/src/batch_io.rs:1495-1546 | for every infinite stream: delivers in order the datagrams up to the first other error, 65 resets in a row or full buffers, in at most 65 calls per buffer |
| EndpointTable.EndpointLookupTable.InsertPending | adapter/ph/src/adapter_tables.rs:123-140 | result, both maps, and that they stay inverse if and only if the transaction was not a duplicate |
| EndpointTable.EndpointLookupTable.LookupPending | adapter/ph/src/adapter_tables.rs:142-144 | finds the pending entry of a transaction if and only if there is one |
| EndpointTable.EndpointLookupTable.SetActive | adapter/ph/src/adapter_tables.rs:146-171 | returns the packet, unindexes its transaction, keeps the maps inverse |
| EndpointTable.EndpointLookupTable.Remove | adapter/ph/src/adapter_tables.rs:186-198 | removes the entry and exactly its index entry |
| EndpointTable.EndpointLookupTable.RemoveByTetherId | adapter/ph/src/adapter_tables.rs:206-215 | withdraws one active entry with that tether, or there is none; pending entries never match |
| EndpointTable.EndpointLookupTable.Clear | adapter/ph/src/adapter_tables.rs:223-233 | removing a snapshot of the keys one by one empties both maps |
| EndpointTableRuns.StepKeepsIndex | adapter/ph/src/adapter_tables.rs:123-233 | every half-operation keeps the index equal to pending entries plus operations under way |
| EndpointTableRuns.StepKeepsPackets | adapter/ph/src/adapter_tables.rs:123-233 | every half-operation keeps each packet in one slot or gone once |
| EndpointTableRuns.TableSafe | adapter/ph/src/adapter_tables.rs:123-233 | on every interleaving no consistency assert fails, the index is exact, and every accepted packet leaves at most once |
| EndpointTableRuns.QuiescentInverse | adapter/ph/src/adapter_tables.rs:123-233 | with nothing under way the maps are inverse |
| EndpointTableRuns.WithdrawsIff | adapter/ph/src/adapter_tables.rs:206-215 | on every interleaving, from any find on, the slot a withdrawal meets is pending if and only if the last operation to touch it since was an insertion; absent if and only if it was a removal or withdrawal; active with a tether if and only if nothing touched it and it is the one found, or the last was the activation with that tether |
| EndpointTableRuns.WithdrawalFollowsFind | adapter/ph/src/adapter_tables.rs:206-215 | every withdrawal has such a find before it |
| EndpointTableRuns.PendingWithdrawn | adapter/ph/src/adapter_tables.rs:206-215 | a concrete run in which a withdrawal takes out a pending entry |
| TxnManager.TxnMgr.TryOpen | adapter/ph/src/mgmt/txn_mgr.rs:98-108 | an opened id has no other live handle; ids wrap at 16 bits |
| TxnManager.TxnMgr.RefTxn | adapter/ph/src/mgmt/txn_mgr.rs:216-223 | cloning a live handle never panics and counts one more |
| TxnManager.TxnMgr.DerefTxn | adapter/ph/src/mgmt/txn_mgr.rs:228-269 | dropping a live handle never panics; only the last one frees the id |
| AddressPool.IdRoundTrip | adapter/ph/src/address_pool.rs:64-117 | the id read back from an allocated address is the id it was made from, and bytes 11 to 15 are its digits |
| AddressPool.SharesPrefix | adapter/ph/src/address_pool.rs:64-85 | all addresses share the network's top 88 bits |
| AddressPool.AddressesDistinct | adapter/ph/src/address_pool.rs:64-85 | addresses are equal if and only if the ids are |
| AddressPool.OwnAddressReleasable | adapter/ph/src/address_pool.rs:95-117 | a pool takes its own addresses back if and only if segment 3 is 0x0aaa |
| AddressPool.ProbeHaltsIff | adapter/ph/src/address_pool.rs:70-75 | probing meets a free id if and only if there is one below the maximum, or the start itself is free |
| AddressPool.FirstFreeIsNearest | adapter/ph/src/address_pool.rs:70-75 | the id chosen is the first free one in cyclic order; a taken start of 2^40-1 continues from 1 |
| AddressPool.Pool.GetAaaAddress | adapter/ph/src/address_pool.rs:64-85 | the loop ends, with the first free id of the probe sequence added |
| AddressPool.Pool.ReleaseAddress | adapter/ph/src/address_pool.rs:95-117 | removes exactly the address's id, or refuses |
| AddressPool.NewPool | adapter/ph/src/address_pool.rs:40-48 | refuses exactly the prefixes longer than 88 |
| AddressPool.StepKeepsInv | adapter/ph/src/address_pool.rs:64-117 | allocation and release keep live addresses and active ids in bijection |
| AddressPool.PoolSafe | adapter/ph/src/address_pool.rs:40-117 | on every run: live addresses are distinct, share the prefix, give back their ids, and are as many as `len` returns |
| VsConn.RunOf | libnode2/src/vsconn.rs:278-432 | every input script has its run of states |
| VsConnLoops.Connection.HandleCommandInPlace | libnode2/src/vsconn.rs:440-722 | replies, requests, events and the loop's fate for every command are those of the step function |
| VsConnLoops.Connection.Loop | libnode2/src/vsconn.rs:365-432 | the command and ping loop follows the step function to its end |
| VsConnLoops.Connection.Run | libnode2/src/vsconn.rs:314-432 | dialing and the loop together |
| VsConnLoops.Connection.RunWithReconnect | libnode2/src/vsconn.rs:278-312 | the nested loops take exactly the run of the state machine over the script, and return only as it does |
| VsConnTheorems.StepKeepsLifecycle | libnode2/src/vsconn.rs:278-432 | every step keeps the order of lifecycle events |
| VsConnTheorems.LifecycleSafe | libnode2/src/vsconn.rs:278-432 | on every run: exactly one exit between two starts, a connect only directly after its start, an unmatched exit only as last event |
| VsConnDiscipline.FailuresSinceSuccess | libnode2/src/vsconn.rs:395-425 | the loop's counter is one exactly if a ping has failed since the last good one |
| VsConnDiscipline.LoopEndsIff | libnode2/src/vsconn.rs:377-425 | a loop ends if and only if on stop, restart, closed channel, or a second failed ping with no good one between |
| VsConnDiscipline.ManagerReturnsIff | libnode2/src/vsconn.rs:278-312 | the manager has returned if and only if the channel closed or a stop came whose deregistration did not fail |
| VsConnDiscipline.ResolvedOnce | libnode2/src/vsconn.rs:440-722 | every dequeued command with a reply is resolved exactly once, in order: closed outside the loop, rejected in the wrong connection state, else by its RPC's outcome |
| VsConnDiscipline.ServedStep | libnode2/src/vsconn.rs:440-722 | a step makes exactly the requests that a call, a ping or a deregistration in a connected loop leads to, with the loop's handle |
| VsConnDiscipline.HandleIsLatest | libnode2/src/vsconn.rs:495-660 | a connected loop's handle is the one established last in its generation |
| VsConnDiscipline.HandleIff | libnode2/src/vsconn.rs:495-660 | a loop holds a handle if and only if that is the one established last in its generation |
| VsConnDiscipline.ServedByLatest | libnode2/src/vsconn.rs:440-722 | every request on a run was made with the handle established last in its generation |
| VsConnPhases.LoopStartsIff | libnode2/src/vsconn.rs:314-369 | on every run, a loop starts if and only if the manager is dialing and the dial succeeds; with no handle, no ping failures, and its start reported |
| VsConnPhases.DialingIff | libnode2/src/vsconn.rs:278-345 | the manager is dialing if and only if it has been since the start, or since a delay was over, without a result, a stop or a closed channel |
| VsConnPhases.DelayingIff | libnode2/src/vsconn.rs:278-312 | it is waiting if and only if it has been since a failed dial or a loop that ended other than for good, with the delay not over and no stop |
| VsConnPhases.EventsIff | libnode2/src/vsconn.rs:314-660 | every input sends at most one event: a start on a successful dial, a connection with its own command's flag on a first successful connect or open, an exit when a loop ends or a dial is cut off; in both directions |
| TokenStore.CleanedCode | adapter/cli/src/oidc.rs:264-274 | a cleaned error code is the characters that section 5.2 of RFC 6749 allows, each in its place, up to the 64th |
| TokenStore.InvalidGrantIff | adapter/cli/src/oidc.rs:98-107 | the test on the error text holds exactly of refusals whose cleaned code is `invalid_grant`, contains `(invalid_grant)`, begins with `invalid_grant)` or ends with `(invalid_grant`; the HTTP status text has no parenthesis |
| TokenStore.MentionTakenForCode | adapter/cli/src/oidc.rs:269-274 | any code ending in `(invalid_grant)` is taken for `invalid_grant` |
| TokenStore.StandardCodeRecognisedIff | adapter/cli/src/oidc.rs:269-274 | a code of the standard passes the cleaning unchanged and is recognised if and only if it is `invalid_grant` |
| TokenStore.CliAuthAgent.RefreshCredential | adapter/cli/src/oidc.rs:480-522 | store, result and the grant sent are those of an uninterrupted silent request; it succeeds if and only if a token is held, the provider is found and the answer carries an `id_token`, and returns that one |
| TokenStore.CliAuthAgent.KeepLogin | adapter/cli/src/oidc.rs:547-590 | a login replaces or removes the issuer's token, a failed one leaves it |
| TokenStoreRuns.StoreIsNewest | adapter/cli/src/oidc.rs:480-590 | on every interleaving the store holds what the last login, rotation or `invalid_grant` of each issuer said |
| TokenStoreRuns.FlightIsNewestIff | adapter/cli/src/oidc.rs:480-522 | a request carries the token newest when it began; it is still the stored one if and only if nothing settled the issuer since, or what did last named the same token again |
| TokenStoreRuns.SerializedGrantIsNewest | adapter/cli/src/oidc.rs:480-522 | one request at a time, every grant carries the newest token |
| TokenStoreRuns.NoGrantAfterDrop | adapter/cli/src/oidc.rs:480-590 | one at a time, after `invalid_grant` or a login without a token no grant is on its way for that issuer until a login brings a token |
| TokenStoreRuns.StaleRefusalDropsNewer | adapter/cli/src/oidc.rs:490-522 | two requests at once: a refusal of the old token drops the rotated one |
| TokenStoreRuns.HoldsLastIssuedIff | adapter/cli/src/oidc.rs:417-435 | the agent holds the token issued last, unless it came without an `id_token`; then if and only if it is the token held already |
| TokenStoreRuns.DiscardedRotationIsLost | adapter/cli/src/oidc.rs:417-435 | a concrete run after which the agent holds the old token |
| HttpReader.FindSubslice | adapter/cli/src/oidc.rs:1048-1052 | the first occurrence, if and only if there is one |
| HttpReader.HeadEndOfPrefix | adapter/cli/src/oidc.rs:980-1000 | a prefix of the stream shows the head's end exactly if it reaches that far |
| HttpReader.HeadEndIff | adapter/cli/src/oidc.rs:980-1000 | the head ends where the first CR LF CR LF of the stream does |
| HttpReader.RequestInIff | adapter/cli/src/oidc.rs:980-1029 | verb and target are those of the parsed head, the body is the bytes behind it up to Content-Length or the end of the stream; and which streams hold no request |
| HttpReader.ReadHttpRequest | adapter/cli/src/oidc.rs:980-1029 | for every stream and reads: too large if a boundary passes the limit before the head ends, else the request in the stream's bytes, cut at Content-Length or end of stream |
| HttpReader.OutcomeByBytes | adapter/cli/src/oidc.rs:980-1029 | outside 65538..66560 the stream's bytes alone decide the outcome |
| HttpReader.ChunkingIndependentIff | adapter/cli/src/oidc.rs:980-1029 | the outcome is the same for all sizes of the reads if and only if the head does not end in that stretch |
| HttpReader.StraddlingStream | adapter/cli/src/oidc.rs:980-1000 | a concrete stream in that stretch: a head of 65538 bytes |

## Left out

- TLS, Cap'n Proto, sockets, io_uring submission, control messages and Wintun are calls into foreign code; only their outcomes appear.
- The Dock Lookup Table (`adapter_tables.rs:236-330`) is a wrapper around an external slab.
- Message formats and signatures (`auth.rs`, `zdp`), configuration, argument parsing, the admin worker, the visa-support service and packet capture: they build or read records and have no state shared with the parts modelled here.
- `classify_zdp`, and the A2A and ZPI headers put in front of a compressed packet and taken off again.
- Tunnel.Transit: the network between the adapters is not modelled, both halves act on one buffer; the hash is an arbitrary function of the bytes to 32 bytes, cut to 8.
- EndpointTable.EndpointLookupTable.RemoveByTetherId: finds and removes in one step; the two steps of the source are in `EndpointTableRuns`.
- Expansion.ExpansionWellFormed: states TCP packets with IHL 5 or version 6, because a UDP checksum and IPv4 options are copied and not recomputed.
- HttpReader.ReadHttpRequest: the text of the head (request line, header names, UTF-8) is an arbitrary function of its bytes.
- TokenStore.CliAuthAgent.RefreshCredential: the class runs one request at a time; interleavings are in `TokenStoreRuns`.
- The browser flow, PKCE, the loopback listener and the texts shown to the user.
- EndpointTableRuns.TableSafe: transactions are fresh when inserted, as the transaction manager guarantees while a handle lives; entries other than packet, transaction and tether id are not modelled.
- AddressPool.Pool.GetAaaAddress: needs a free id; with none the source loops for ever.
- Wall-clock times: delays and ping intervals are inputs, in any order.
- ResetTolerantReceive.RecvFromBatch: the local address attached to each datagram is not modelled.
- TxnManager.TxnMgr.DerefTxn: waiting callers and their wake-up are reduced to the returned flag.
