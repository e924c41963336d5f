# A verified model of Tftpd32's services

This project models the stateful core of the Tftpd32/Tftpd64 services in Dafny and proves what that code is for.
`dafny verify dfyconfig.toml` checks all of it. Code that works by changing state keeps that form here: arrays of
pointers, linked lists, contexts and buffers are objects updated in place by methods, and each method is proved against
a function on values whose properties are then proved for all inputs and all runs.

| part | modules | source |
|---|---|---|
| DHCP lease database and message machine | `AddressPool`, `LeaseTable`, `DhcpProtocol`, `DhcpLaws`, `LeaseDatabase`, `DhcpServer` | `bootpd.c`, `bootpd_util.c`, `ip_util.c` |
| DHCP options | `DhcpOptions`, `DhcpReply`, `DhcpAnswers` | `bootpd.c` |
| channel from the services to the GUI | `MessageQueue`, `ConsoleChannel`, `ChannelHistory`, `ChannelLiveness` | `linked_list.c`, `to_console.c` |
| MD5 | `Md5Reference`, `Md5` | `md5.c` |
| table of TFTP transfers | `TransferTable` | `tftpd_main.c` |
| wire codecs | `InternetChecksum`, `DnsQname`, `Framing` | `ping_api.c`, `dns.c`, `mini_tcp4u.c`, `dialog_common.c` |

## How the model reads

**DHCP database.** `LeaseTable` says what each operation does to a map from addresses to leases; `DhcpProtocol` is
ProcessDHCPMessage as a state machine over that map, with the clock, the static assignment, the answers to probes and the
answer to the ARP request as arbitrary inputs of each message; the run theorems are there. `DhcpLaws` says for each kind of
message what is answered and what becomes of the table, in terms of who holds which address since when and without the
functions that the state machine is made of. `LeaseDatabase` and
`DhcpServer` are the C code: records on the heap, `tFirstIP` and `tMAC` sorted in place, searched by bisection; every
method's contract says that it does exactly what the map-level function says. Addresses are 32-bit numbers in host
order, a MAC is its six compared bytes as one big-endian number, `hlen` is 6, and no client uses the zeroed MAC or the
six characters `FF:FF:` that mark a quarantined address. The settings stay constant, the pool does not wrap around the
address space, and `nLease` is positive with its seconds in an int. The clock does not move while one message is
processed.

**Two ways to break the database, and their exact reach.** An operation that breaks the database ends in a fault, and the
run stops there; every DHCP property holds for every pool, under both MAC orders, for every run up to such a point.

- `Dangling`: DHCPDestroyItem zeroes a record's MAC, sorts, and drops the last slot of both arrays, so it needs the zeroed
  MAC to sort last. MACCompare (bootpd_util.c:484-490) is a plain memcmp, which sorts it first. With two records or more
  the freed record then stays in `tMAC` and a live one is lost from it, and the next search by MAC reads freed memory. The
  setting `zeroedMacFirst` chooses the order, so both are modelled. The proofs say exactly when it happens
  (`DHCPDestroyItem`, `Allocate2DanglesIff`, `AllocateDanglesIff`, `ProcessDanglesIff`), that three messages suffice with
  the shipped order (`ShippedOrderDangles`), and that it never happens with the order the function is written for
  (`RunNeverDangles`).
- `Misplaced`: AddrInc steps over last bytes 255 and 0, AddrFitsPool does not. In a pool that contains such addresses the
  hole search can therefore stop at a held address, for which a second record is then created, or at one outside the pool
  (`GapMisleads`, `DHCPReallocItem`). No run from the empty database gets there exactly when AddrInc skips no address of
  the pool (`NeverMisplacedIffGapFree`), as in every pool between .1 and .254 of one /24 (`OneSubnetIsGapFree`).

**Other places where code and expectation part.** An ignored BOOTP request prepares no answer but still returns TRUE
(`UnpreparedIff`). A custom DHCP option whose number is a multiple of 256 is written with the code of the padding: for some
values the search then finds an option that nobody wrote, and for no values if there is no such number
(`AlwaysFindsAllIff`). A number with the code of the end option ends the list early for a client that reads it as section 2
of RFC 2132 has it; such a client gets what was written exactly when no number in use has one of these two codes
(`ClientReadsIff`). SendMsg does not test the length that TcpPPRecv refuses, and counts a missing payload in the header
(`MsgArrivesIff`); a zero-length message is received but reported like a closed connection (`LimitsOfReceiver`); a header of
which one byte arrives is reported as a message of one byte (`HalfHeaderIff`). The send loops add the -1 of a failing send
to an unsigned total, so a failure of the first payload send is reported as success (`TcpSend`, `TcpPPSend`). ExplodeQname
takes dotted names one byte shorter than the name buffer would hold. The padding of an answer to 64 bytes in
DHCPOptionsReply never applies, since the fixed part of the packet alone is longer.

**DHCP options.** The scan of DHCPSearchOptionsField is bounded by the size of the field without the cookie, so it may
look a few bytes behind it; the buffer is modelled with five such bytes. The reply is written over the request in the same
buffer, so `DHCPOptionsReply` says what the buffer holds from its start up to the end option, and `ClientReadsIff` what the
client gets, who receives only that much. `DhcpAnswers` says code by code which setting the client reads, and which codes it
does not find.

**Channel.** `ConsoleChannel` interleaves single steps of any number of producers and of the console thread: taking the
mutex, waiting for an empty queue, each try of a push, the two events, the unlocked test of the head, the pop, the send.
Its queue operations are those `MessageQueue` proves of the heap lists. `ChannelHistory` follows a run with a record of what
the callers handed in, and compares what the GUI gets with it. `ChannelLiveness` adds infinite runs under a fair
schedule: a step of a producer or of the console that stays enabled is made, and the console's wait for its event and a
producer's wait for the mutex end if they are satisfied again and again; no other thread need be fair. The model covers one
connected session, request types below 0x10000 and a limit of at least 2 (the source uses 300).

**MD5.** `Md5Reference` is RFC 1321 with the table-driven loop of section 3.4; words are numbers below 2^32. Shifts multiply
and divide by powers of two, as C defines them for unsigned operands; `|` and `&` are defined bit by bit. MD5Update asks
only that the sum `i + 63` of its block loop does not wrap, which holds for every length up to 2^32 - 64 (`NoWrapBelow`).

**Transfer table.** Requests, failed receives, worker exits and sweeps in any order, for up to 2^32 requests, from the two
permanent records on. The ghost flag `populated` tells records that have been given a request.

**Framing.** A connection is the sequence of bytes sent and not yet received. Each send moves an arbitrary positive number
of bytes or fails; each receive moves an arbitrary positive number, but a header that is there is received as a whole. The
contracts of the methods and `MessagesArriveInOrder` are about whole calls, one after the other; `EveryInterleaving` lets
the single steps of sender, network and receiver alternate freely.

## Model

| member | source | states |
|---|---|---|
| `AddressPool.OneSubnetIsGapFree` | src/_services/ip_util.c:25-33 | in a pool between .1 and .254 of one /24 AddrInc goes from every pool address to the next |
| `AddressPool.AddrIncIsSuccessor` | src/_services/ip_util.c:25-33 | on addresses not ending in 0 or 255 AddrInc is the successor: usable, greater, nothing usable between |
| `AddressPool.HoleIsLeastUsable` | src/_services/bootpd.c:294-311 | over distinct usable held addresses, none below the pool start, the hole search picks the least usable address that nobody holds |
| `AddressPool.HoleIsLeastFree` | src/_services/bootpd.c:294-311 | in a gap-free pool with room it picks the least free pool address |
| `AddressPool.HoleIsLeastFreeIffGapFree` | src/_services/bootpd.c:294-311 | it does so for every set of held addresses exactly when the pool is gap free |
| `AddressPool.GapMisleads` | src/_services/bootpd.c:294-311 | in every pool with a gap some set of held addresses makes the hole search pick a held address or one outside the pool |
| `AddressPool.NeverMisledIffGapFree` | src/_services/bootpd.c:294-311 | no set of held addresses does exactly when the pool is gap free |
| `LeaseTable.Pigeonhole` | src/_services/bootpd.c:265-300 | the database never outgrows the pool, although the path for a requested address has no capacity test; below that size an address is free |
| `LeaseTable.HeldIsListing` | src/_services/bootpd.c:97-102 | the held addresses in order, which the hole search sees, are the addresses of the database |
| `LeaseTable.HoleIsUsable` | src/_services/bootpd.c:291-311 | in a gap-free pool with room the new address is the least free one |
| `LeaseTable.Allocate2Effect` | src/_services/bootpd.c:226-352 | a granted address is in the pool and was free, the client's own or expired; the client has that record only; no other record changes |
| `LeaseTable.ProbeStep` | src/_services/bootpd.c:360-403 | each answered probe quarantines an address that this call cannot be granted again |
| `LeaseTable.ProbeableInPool` | src/_services/bootpd.c:360-403 | at most nPoolSize addresses can be probed |
| `LeaseTable.RefusedIff` | src/_services/bootpd.c:226-352 | an allocation fails exactly when the client has no record, the address it asks for is outside the pool or held by a live lease, and every pool address is held by a live lease or was allocated within two minutes |
| `LeaseTable.Allocate2DanglesIff` | src/_services/bootpd.c:236-258 | one allocation leaves a freed record in the MAC index exactly when it moves a known client, the zeroed MAC sorts first and there are two records |
| `LeaseTable.AllocateDanglesIff` | src/_services/bootpd.c:355-405 | the same for the probing loop, whatever the probes answer |
| `DhcpProtocol.AllocateEffect` | src/_services/bootpd.c:355-405 | whatever the probes answer, the database stays sound, other clients' live leases are untouched, and the granted record is the client's, made or touched now |
| `DhcpProtocol.DeclineKeeps` | src/_services/bootpd.c:818-858 | DECLINE keeps the database sound and the live leases of all but the sender and whoever answers the ARP request |
| `DhcpProtocol.ProcessKeeps` | src/_services/bootpd.c:656-877 | so does every message |
| `DhcpProtocol.StepKeepsInv` | src/_services/bootpd.c:656-877 | every message and every deletion from the GUI keeps the invariant |
| `DhcpProtocol.RunKeepsInv` | src/_services/bootpd.c:656-877 | over every run: all records in the pool, no client with two records, no more records than pool addresses |
| `DhcpProtocol.LiveLeaseSurvives` | src/_services/bootpd.c:692-870 | a live lease keeps address, owner and times through any sequence of messages from others |
| `DhcpProtocol.AnswerRespectsLease` | src/_services/bootpd.c:692-816 | no answer to a client without a static entry carries an address that another client holds a live lease of |
| `DhcpProtocol.LiveLeaseIsNotOffered` | src/_services/bootpd.c:692-816 | the same over every run of messages from others, as long as the lease is live |
| `DhcpProtocol.UnpreparedIff` | src/_services/bootpd.c:671-699 | a reply that nobody prepared is called for exactly for an ignored BOOTP request |
| `DhcpProtocol.DeclineDanglesIff` | src/_services/bootpd.c:818-858 | when exactly a DECLINE leaves a freed record in the MAC index |
| `DhcpProtocol.ProcessDanglesIff` | src/_services/bootpd.c:656-877 | when exactly any message does |
| `DhcpProtocol.RunNeverDangles` | src/_services/bootpd.c:176-195 | with the zeroed MAC sorted last no run ever does |
| `DhcpProtocol.ShippedOrderDangles` | src/_services/bootpd.c:184-191 | with memcmp three DISCOVER messages suffice, for every pool of three addresses or more |
| `DhcpProtocol.ClaimsAreGranted` | src/_services/bootpd.c:284-289 | any set of pool addresses can come to be held: one client after the other asks for its address and is granted it |
| `DhcpProtocol.RunNeverMisplaces` | src/_services/bootpd.c:291-311 | in a gap-free pool no run creates a record for an address that is held or outside the pool |
| `DhcpProtocol.GapMisplaces` | src/_services/bootpd.c:291-311 | in every other pool some run from the empty database does |
| `DhcpProtocol.NeverMisplacedIffGapFree` | src/_services/bootpd.c:291-311 | no run from the empty database does exactly when AddrInc skips no address of the pool |
| `DhcpLaws.AllocationLaw` | src/_services/bootpd.c:226-352 | which address an allocation grants: the one asked for if it is free, the client's own, or held by a record that was never acknowledged or is over; else the client's own; else the hole while there is room; else the least stale one; what becomes of the table; when it refuses and when it leaves a freed record in the MAC index, both exactly |
| `DhcpLaws.DiscoverLaw` | src/_services/bootpd.c:700-742 | a DISCOVER is offered exactly that address, and the record made for it; it is unanswered exactly when there is none |
| `DhcpLaws.ProbeLaw` | src/_services/bootpd.c:360-403 | if the first address answers the probe, it goes to the placeholder, and the message is processed as if it came to that database |
| `DhcpLaws.BootpLaw` | src/_services/bootpd.c:694-737 | BOOTP, unless ignored, is answered in the same way without probes, and its record counts as acknowledged at the distant time 0x66666666 |
| `DhcpLaws.RequestAcksExactly` | src/_services/bootpd.c:744-815 | a REQUEST of a known client is acknowledged with exactly the address it asks for, if that is in the pool and free, its own, unacknowledged or over; it then has just that record, renewed now, and the others keep theirs; any other REQUEST is unanswered and changes nothing |
| `DhcpLaws.PxeLaw` | src/_services/bootpd.c:789-807 | with PXE compatibility a known client without an address gets the one it is due |
| `DhcpLaws.StaticLaw` | src/_services/bootpd.c:700-758 | a static entry is offered and acknowledged as it is, and nothing is recorded |
| `DhcpLaws.ReleaseLaw` | src/_services/bootpd.c:860-869 | RELEASE zeroes both times of the sender's record, keeps its address and owner and all other records, and is unanswered |
| `DhcpLaws.DeclineLaw` | src/_services/bootpd.c:818-858 | DECLINE removes the sender's record if it declines its own address, and gives whoever answers the ARP request a record with the distant renew time; it is unanswered |
| `DhcpLaws.DeleteLaw` | src/_services/to_console.c:271-278 | the GUI's deletion removes the record of that address and no other |
| `DhcpLaws.SilentLaw` | src/_services/bootpd.c:671-699 | no message of another type, and none with an assigned address, is answered or changes anything |
| `DhcpLaws.OwnAddressIsAcknowledged` | src/_services/bootpd.c:744-815 | the address of any record the client has is acknowledged when it asks for it |
| `DhcpLaws.OfferIsAcknowledged` | src/_services/bootpd.c:700-815 | the run of a DISCOVER and the REQUEST for the offered address ends with its acknowledgement, whatever the probes answer |
| `LeaseDatabase.Exchange` | src/_services/bootpd.c:169-171 | swapping neighbouring slots keeps a listing of the same records |
| `LeaseDatabase.Qsort` | src/_services/bootpd.c:169-171 | the array lists the same records, in the order of the comparator |
| `LeaseDatabase.Bsearch` | src/_services/bootpd.c:242-270 | finds a record with the key in a sorted array, or there is none |
| `LeaseDatabase.LeaseDb.constructor` | src/_services/bootpd.c:97-102 | an empty database is valid |
| `LeaseDatabase.LeaseDb.DHCPSearchByIP` | src/_services/bootpd.c:266-275 | exact lookup by address, and whether the lease is unacknowledged or over |
| `LeaseDatabase.LeaseDb.DHCPSearchByMacAddress` | src/_services/bootpd.c:239-243 | exact lookup by MAC |
| `LeaseDatabase.LeaseDb.SetRecord` | src/_services/bootpd.c:165-168 | the record takes its address and owner, allocated now, not renewed |
| `LeaseDatabase.LeaseDb.DHCPReallocItem` | src/_services/bootpd.c:156-174 | creates or re-owns one record; both arrays are again sorted permutations of one set of records; a new record for a held address has a twin |
| `LeaseDatabase.LeaseDb.EndSlots` | src/_services/bootpd.c:184-190 | where the sorts put a destroyed record: last by address; last or first by MAC, as the comparator has it |
| `LeaseDatabase.LeaseDb.DHCPDestroyItem` | src/_services/bootpd.c:176-195 | frees exactly the given record; the arrays agree again, or, exactly when the zeroed MAC sorts first and another record exists, tMAC keeps the freed record and misses a live one |
| `LeaseDatabase.LeaseDb.AddressesOfTable` | src/_services/bootpd.c:97-102 | tFirstIP lists the held addresses in increasing order without repetition |
| `LeaseDatabase.LeaseDb.FindHole` | src/_services/bootpd.c:294-311 | the scan over the sorted array finds the hole in the listing of the held addresses |
| `LeaseDatabase.LeaseDb.FindReusable` | src/_services/bootpd.c:318-330 | finds the least address whose lease may be given away, or there is none |
| `LeaseDatabase.LeaseDb.SetAllocTime` | src/_services/bootpd.c:248-252 | changes that record's allocation time and nothing else |
| `LeaseDatabase.LeaseDb.SetRenewTime` | src/_services/bootpd.c:383-384 | changes that record's renew time and nothing else |
| `LeaseDatabase.LeaseDb.AllocateRequestedOrNew` | src/_services/bootpd.c:265-330 | the requested address if free, expired or the client's own; otherwise a new or reused one |
| `LeaseDatabase.LeaseDb.AllocateNewOrReused` | src/_services/bootpd.c:291-330 | the hole while there is room, then the least reusable address; a record for a held address or one outside the pool is a fault, and its twin or its address shows it |
| `LeaseDatabase.LeaseDb.DHCP_IPAllocate2` | src/_services/bootpd.c:226-352 | does on the heap what the map-level allocation says, in all outcomes |
| `LeaseDatabase.LeaseDb.Quarantine` | src/_services/bootpd.c:383-384 | the record goes to the placeholder MAC, allocated and renewed now |
| `LeaseDatabase.LeaseDb.DHCP_IPAllocate` | src/_services/bootpd.c:355-405 | the same for the probing loop, which runs at most nPoolSize + 1 times whatever the probes answer |
| `DhcpServer.AllocateThenRenew` | src/_services/bootpd.c:721-737 | allocation and renewal agree with the state machine |
| `DhcpServer.DoDiscover` | src/_services/bootpd.c:694-742 | so does the handling of BOOTP and DISCOVER |
| `DhcpServer.DoRequest` | src/_services/bootpd.c:744-815 | so does REQUEST |
| `DhcpServer.DropDeclined` | src/_services/bootpd.c:818-833 | a declined record of the sender's own is destroyed, nothing else |
| `DhcpServer.DoDecline` | src/_services/bootpd.c:818-858 | DECLINE agrees with the state machine |
| `DhcpServer.DoRelease` | src/_services/bootpd.c:860-869 | RELEASE zeroes both times of the sender's record and keeps it |
| `DhcpServer.ProcessDHCPMessage` | src/_services/bootpd.c:656-877 | every message changes the heap database, and is answered, as the state machine says |
| `DhcpServer.DeleteAssignation` | src/_services/to_console.c:271-278 | the GUI's deletion removes exactly the record of that address |
| `DhcpOptions.DHCPSearchOptionsField` | src/_services/bootpd.c:115-131 | returns the place the specification function Search gives, within the buffer |
| `DhcpOptions.ScanItems` | src/_services/bootpd.c:121-123 | over encoded options the scan stops at the first with the code, or comes to what follows them |
| `DhcpOptions.SearchFinds` | src/_services/bootpd.c:115-131 | the first value written for a code is found, whatever stands behind the end option |
| `DhcpOptions.SearchIsFirst` | src/_services/bootpd.c:115-131 | on every well-formed field the search returns the first match, or nothing when there is none |
| `DhcpOptions.PrefixFinds` | src/_services/bootpd.c:115-131 | the first value among the first options is found, whatever follows them |
| `DhcpOptions.Phantom` | src/_services/bootpd.c:121-123 | an option with the code of the padding makes the search find one that nobody wrote |
| `DhcpOptions.ParseOfEncoded` | src/_services/bootpd.c:486-639 | options encoded as section 2 of RFC 2132 has it are read back, whatever follows the end option |
| `DhcpReply.StoreCustom` | src/_services/bootpd.c:622-631 | writes the custom options in use, in order |
| `DhcpReply.StoreFixed` | src/_services/bootpd.c:497-545 | stores the value of an option of fixed length |
| `DhcpReply.StoreSingle` | src/_services/bootpd.c:502-600 | writes at most one option of variable length, with its true length |
| `DhcpReply.NextRow` | src/_services/bootpd.c:486-639 | one round of the loop appends the encoding of that row's options and keeps what stands before |
| `DhcpReply.SaveAgent` | src/_services/bootpd.c:449-456 | reads the relay agent information of the request |
| `DhcpReply.DHCPOptionsReply` | src/_services/bootpd.c:410-649 | for every answer that fits, leaves cookie, encoded options and end option, and returns the size up to there |
| `DhcpReply.TableComesFirst` | src/_services/bootpd.c:486-649 | the search finds the table's own value of each option it wrote, which custom options cannot replace |
| `DhcpReply.AnswerIsRead` | src/_services/bootpd.c:486-649 | for every code the search finds the value written first, among the options before the first custom number that is a multiple of 256 |
| `DhcpReply.AlwaysFindsAllIff` | src/_services/bootpd.c:622-649 | whatever the values of the custom options, the search finds in the bytes sent exactly the options written: if and only if no number in use is a multiple of 256 |
| `DhcpReply.ClientReadsIff` | src/_services/bootpd.c:486-649 | a reader after section 2 of RFC 2132 gets exactly the options written, in order: if and only if no custom number in use has the code of padding or end |
| `DhcpReply.AgentIsEchoed` | src/_services/bootpd.c:593-600 | relay agent information goes back as it came, whatever the settings |
| `DhcpReply.AnswerNamesLease` | src/_services/bootpd.c:497-545 | every answer carries message type, server address, mask and lease time |
| `DhcpReply.Misleading` | src/_services/bootpd.c:622-631 | for every setting with such a number there are values for which an option is found that nobody wrote |
| `DhcpReply.ShortAnswerFits` | src/_services/bootpd.c:486-639 | answers whose custom values have at most 26 bytes fit the field |
| `DhcpAnswers.Identity` | src/_services/bootpd.c:497-509 | every answer carries its type, this server and the mask |
| `DhcpAnswers.Times` | src/_services/bootpd.c:543-545 | lease, renewal and rebinding time are read back as nLease minutes, half and four fifths of them, in seconds, high byte first |
| `DhcpAnswers.Router` | src/_services/bootpd.c:511-520 | the router is the gateway |
| `DhcpAnswers.NameServers` | src/_services/bootpd.c:522-533 | the first DNS server, then the second if there is one |
| `DhcpAnswers.OtherServers` | src/_services/bootpd.c:534-583 | WINS, NTP and SIP servers, the last behind a byte 1 |
| `DhcpAnswers.LogServer` | src/_services/bootpd.c:500-501 | the syslog server is this one, if it runs |
| `DhcpAnswers.BootServer` | src/_services/bootpd.c:502-564 | TFTP server, and the boot file's size in blocks, high byte first |
| `DhcpAnswers.NameAndAgent` | src/_services/bootpd.c:584-600 | domain name, and the relay agent information of the request |
| `DhcpAnswers.NothingElse` | src/_services/bootpd.c:486-639 | an option without a setting, and not among the custom ones, is not found |
| `DhcpAnswers.CustomIsRead` | src/_services/bootpd.c:622-631 | the first custom option of its code is read as it is, unless the settings give that code another value |
| `MessageQueue.PushKeepsInv` | src/_libs/linked_list/linked_list.c:63-128 | a push keeps order, consecutive ids and the limit |
| `MessageQueue.PopKeepsInv` | src/_libs/linked_list/linked_list.c:149-179 | so does a pop |
| `MessageQueue.MsgList.FindTail` | src/_libs/linked_list/linked_list.c:100-108 | a cleared tail is found again |
| `MessageQueue.MsgList.Link` | src/_libs/linked_list/linked_list.c:95-112 | the chain stays acyclic and gets the node at its end |
| `MessageQueue.MsgList.TryPush` | src/_libs/linked_list/linked_list.c:72-121 | appends the message as handed in, with the next id, unless the list is full; a refused push changes nothing |
| `MessageQueue.MsgList.TryPop` | src/_libs/linked_list/linked_list.c:149-179 | takes the oldest message, or finds the list empty |
| `MessageQueue.LL_Create` | src/_libs/linked_list/linked_list.c:46-55 | empties its list and, although it clears the tail of list 0, leaves every other list valid and with the same messages |
| `ConsoleChannel.NextMutex` | src/_services/to_console.c:89-115 | at most one producer is between taking and releasing the mutex |
| `ConsoleChannel.NextNoLostWakeUp` | src/_services/to_console.c:82-118 | every step keeps: a non-empty queue means event set, console draining, or a wake-up about to come |
| `ConsoleChannel.NextDelivered` | src/_services/to_console.c:121-156 | what the GUI got is what was popped; the event was raised once per blocking message, in order |
| `ConsoleChannel.NextTransit` | src/_services/to_console.c:90-104 | a blocking message is in one place only: alone in the queue, with the console, or delivered with the event set |
| `ConsoleChannel.RunInv` | src/_services/to_console.c:82-156 | the invariant over every interleaving |
| `ConsoleChannel.ChannelSafety` | src/_services/to_console.c:82-156 | no lost wake-up; accepted messages reach the GUI in order, without loss or duplicates; a list seen non-empty is still so under the lock |
| `ConsoleChannel.BlockingSends` | src/_services/to_console.c:90-104 | a blocking message is alone in the queue, is never refused, and its sender returns only after it was sent and signalled |
| `ConsoleChannel.RaisedOncePerBlockingMessage` | src/_services/to_console.c:136-154 | the event is raised exactly once for each blocking message sent, in their order |
| `ConsoleChannel.HelpfulStepHelps` | src/_libs/linked_list/linked_list.c:132-144 | the mutex owner or the console always has a step that brings the release nearer |
| `ConsoleChannel.OwnerCanRelease` | src/_services/to_console.c:82-118 | no deadlock: from every sound state steps of the owner and the console alone lead to the release of the mutex |
| `ChannelHistory.RunLogInv` | src/_services/to_console.c:68-156 | over every run the accepted messages are the requests that found room, in their order |
| `ChannelHistory.GuiGetsWhatWasHandedIn` | src/_services/to_console.c:68-156 | the k-th message the GUI gets has id k + 1 and the data and type of the k-th request that found room, flagged exactly if its caller waits; who has waited has waited for its own message; a request is given up only after four refusals |
| `ChannelLiveness.RankDrops` | src/_services/to_console.c:82-156 | while a producer owns the mutex every step brings the release nearer or leaves what it waits for as it is |
| `ChannelLiveness.OwnerReleases` | src/_services/to_console.c:89-115 | in every fair run the owner of the mutex releases it |
| `ChannelLiveness.EveryCallReturns` | src/_services/to_console.c:68-118 | in every fair run every call of SendMsgRequest, blocking or not, returns |
| `Md5Reference.StepBack` | src/_libs/md5/md5.c:77-96 | every step has an inverse |
| `Md5Reference.StepsAreBijective` | src/_libs/md5/md5.c:197-267 | for a fixed block the 64 steps are a bijection on the state |
| `Md5Reference.WordsOfBytes` | src/_libs/md5/md5.c:283-311 | decoding what was encoded gives the words back |
| `Md5Reference.BytesOfWords` | src/_libs/md5/md5.c:283-311 | encoding what was decoded gives the bytes back |
| `Md5Reference.FoldPrefix` | src/_libs/md5/md5.c:142-143 | the state after k blocks does not depend on what follows |
| `Md5Reference.ChoiceOfI` | src/_libs/md5/md5.c:65-68 | where x has ones I is the complement of y, elsewhere that of the difference of y and z |
| `Md5Reference.InitialBytes` | src/_libs/md5/md5.c:106-109 | the initial state as the bytes that section 3.3 of RFC 1321 lists |
| `Md5Reference.WordsLowFirst` | src/_libs/md5/md5.c:301-311 | each word read is the number of its four bytes, low-order byte first |
| `Md5Reference.BytesLowFirst` | src/_libs/md5/md5.c:283-296 | each word is written in that order |
| `Md5Reference.PadFront` | src/_libs/md5/md5.c:163-172 | the padded message is the message, a byte 0x80 and up to 63 zeros |
| `Md5Reference.PadLength` | src/_libs/md5/md5.c:163-176 | its last two words make up the length in bits modulo 2^64, low-order word first |
| `Md5.FF` | src/_libs/md5/md5.c:77-81 | one macro step is one step of section 3.4 |
| `Md5.GG` | src/_libs/md5/md5.c:82-86 | the same in round 2 |
| `Md5.HH` | src/_libs/md5/md5.c:87-91 | the same in round 3 |
| `Md5.II` | src/_libs/md5/md5.c:92-96 | the same in round 4 |
| `Md5.ROTATE_LEFT` | src/_libs/md5/md5.c:72-72 | the shifts and the bitwise or of the macro are the rotation of section 3.4 |
| `Md5.Join4` | src/_libs/md5/md5.c:309-310 | the shifts and ors of Decode give the word of the four bytes |
| `Md5.ByteAt` | src/_libs/md5/md5.c:291-294 | the shift and mask of Encode give the byte of the word |
| `Md5.AndWithMask` | src/_libs/md5/md5.c:124-124 | a bitwise and with a mask of ones is the remainder |
| `Md5.Round1` | src/_libs/md5/md5.c:196-212 | the 16 unrolled steps are steps 1 to 16 of the table-driven loop |
| `Md5.Round2` | src/_libs/md5/md5.c:214-230 | steps 17 to 32 |
| `Md5.Round3` | src/_libs/md5/md5.c:232-248 | steps 33 to 48 |
| `Md5.Round4` | src/_libs/md5/md5.c:250-266 | steps 49 to 64 |
| `Md5.Decode` | src/_libs/md5/md5.c:301-311 | the words of the bytes, low byte first |
| `Md5.Encode` | src/_libs/md5/md5.c:283-296 | the bytes of the words |
| `Md5.NoWrapBelow` | src/_libs/md5/md5.c:142-142 | the block loop's sum does not wrap for lengths up to 2^32 - 64 |
| `Md5.LoopTest` | src/_libs/md5/md5.c:142-142 | when exactly the 32-bit loop test fails to tell whether a whole block is left |
| `Md5.CountUpdate` | src/_libs/md5/md5.c:126-131 | the two count words with their carry hold the number of bits modulo 2^64 |
| `Md5.MD5_CTX.constructor` | src/_libs/md5/md5.c:100-110 | a new context has taken in nothing |
| `Md5.MD5_CTX.MD5Transform` | src/_libs/md5/md5.c:188-278 | the state is compressed with the block as in section 3.4 |
| `Md5.MD5_CTX.TransformBlocks` | src/_libs/md5/md5.c:142-143 | the state is the fold over all complete blocks |
| `Md5.MD5_CTX.MD5Update` | src/_libs/md5/md5.c:116-154 | takes in the bytes: count, buffered tail and state are those of the concatenated input, however it was split |
| `Md5.MD5_CTX.AppendPadding` | src/_libs/md5/md5.c:163-176 | takes in the padding and length of sections 3.1 and 3.2 |
| `Md5.MD5_CTX.MD5Final` | src/_libs/md5/md5.c:159-184 | the digest of everything taken in; the context is zeroed |
| `TransferTable.Tftpd.TftpdDestroyThreadItem` | src/_services/tftpd_main.c:209-232 | removes that record unless permanent, keeps the others in order, returns the record before it |
| `TransferTable.Tftpd.PopulateTftpdStruct` | src/_services/tftpd_main.c:176-194 | the record gets the next id; nothing else changes |
| `TransferTable.Tftpd.TftpdChooseNewThread` | src/_services/tftpd_main.c:275-410 | a request goes to the first waiting permanent record or a new last one, which goes again if the receive fails; at the limit it is dropped; only a failed receive on an empty table is excluded, where the source follows a null pointer |
| `TransferTable.Tftpd.CreatePermanentThreads` | src/_services/tftpd_main.c:454-482 | two idle permanent records |
| `TransferTable.Tftpd.Sweep` | src/_services/tftpd_main.c:582-600 | terminates with exactly the permanent and active records, in order |
| `TransferTable.Tftpd.Shutdown` | src/_services/tftpd_main.c:650-656 | empties the list |
| `TransferTable.Tftpd.FindTransfer` | src/_services/to_console.c:174-180 | the first record with the id, or none |
| `TransferTable.SweptIsSubsequence` | src/_services/tftpd_main.c:584-599 | the sweep keeps just the permanent and active records, in their order |
| `TransferTable.ArriveKeepsInv` | src/_services/tftpd_main.c:275-410 | a request keeps the invariant |
| `TransferTable.SweepKeepsInv` | src/_services/tftpd_main.c:582-600 | so does a sweep |
| `TransferTable.TableSafety` | src/_services/tftpd_main.c:580-610 | over every run, of any length, with up to 2^32 requests: both permanent records first, at most max(2, limit) records, distinct ids among populated records |
| `TransferTable.ActiveUndisturbed` | src/_services/tftpd_main.c:304-337 | no request touches an active record |
| `TransferTable.RequestIsServed` | src/_services/tftpd_main.c:304-380 | below the limit a received request makes exactly one inactive or new record active, with its id |
| `TransferTable.SweepLaw` | src/_services/tftpd_main.c:582-600 | a record is left by the sweep exactly if it was there and is permanent or active |
| `TransferTable.ActiveStays` | src/_services/tftpd_main.c:580-610 | over every run the record of a transfer stays, unchanged, until its own worker exits |
| `TransferTable.RequestLaw` | src/_services/tftpd_main.c:275-410 | where a request goes: nowhere at the limit, to the first permanent record that is not active, or to a new last one; the n-th gets the id 467 + n modulo 2^32 |
| `InternetChecksum.OnesSumIsFoldedSum` | src/_libs/ping_api/ping_api.c:190-208 | the one's complement sum is the plain sum folded once at the end |
| `InternetChecksum.TwoFolds` | src/_libs/ping_api/ping_api.c:206-208 | two folds of a non-negative int are enough |
| `InternetChecksum.NoOverflowIff` | src/_libs/ping_api/ping_api.c:182-193 | the int accumulator is safe exactly up to 32768 words |
| `InternetChecksum.in_cksum` | src/_libs/ping_api/ping_api.c:177-210 | the one's complement checksum of section 1 of RFC 1071, even or odd length, up to 65537 bytes |
| `InternetChecksum.StoredBytesVerify` | src/_libs/ping_api/ping_api.c:177-210 | stored in a zeroed even field it makes the checksum of the buffer 0 |
| `InternetChecksum.ByteOrderIndependent` | src/_libs/ping_api/ping_api.c:177-210 | in network order the result is its byte swap |
| `DnsQname.AcceptedIsUnique` | src/_services/dns.c:222-239 | the bytes determine the labels |
| `DnsQname.EncodedIsAccepted` | src/_services/dns.c:200-251 | every encoded name that fits is accepted, whatever follows |
| `DnsQname.ShortDatagramsFit` | src/_services/dns.c:229-242 | in datagrams of at most 512 bytes no name is rejected as too long |
| `DnsQname.QuestionIsRead` | src/_services/dns.c:244-250 | a question whose name fits is read back: labels, then type and class, high byte first |
| `DnsQname.DottedForm` | src/_services/dns.c:233-239 | a single dot stands between labels |
| `DnsQname.ExplodeQname` | src/_services/dns.c:200-251 | accepts exactly the encodings of sections 3.1 and 4.1.2 of RFC 1035 that leave room for type and class and whose dotted form fits; stores the dotted form, the type and the class |
| `Framing.Connection.TcpSend` | src/_libs/mini_tcp4u/mini_tcp4u.c:147-162 | if no send fails the buffer goes out whole, however the sends split it; a failure is reported exactly if some bytes went out before |
| `Framing.Connection.TcpPPSend` | src/_libs/mini_tcp4u/mini_tcp4u.c:165-186 | what goes out of header and payload, and which failures are reported; one frame when all goes well, nothing when the message is too long |
| `Framing.Connection.RecvBody` | src/_libs/mini_tcp4u/mini_tcp4u.c:206-214 | the loop collects exactly n bytes, or fails when the stream ends before |
| `Framing.Connection.TcpPPRecv` | src/_libs/mini_tcp4u/mini_tcp4u.c:190-215 | the first message of the stream and its length, leaving the rest unread; all failures; and when exactly a message is longer than the buffer, which the source does not test |
| `Framing.Connection.SendMsg` | src/_common/dialog_common.c:20-30 | what goes out of header, type and payload, and the result, whether sends fail or not |
| `Framing.MsgArrivesIff` | src/_common/dialog_common.c:20-30 | the message meant arrives exactly when its length is admissible and the header counts what is sent |
| `Framing.MsgIsRead` | src/_common/dialog_common.c:20-30 | the receiver reads back type and payload |
| `Framing.LimitsOfReceiver` | src/_libs/mini_tcp4u/mini_tcp4u.c:190-215 | messages of 1 to 0x7FFF bytes, and no others, are received as such |
| `Framing.WireOrder` | src/_common/dialog_common.c:20-30 | the header goes out high byte first, the type low byte first |
| `Framing.HalfHeaderIff` | src/_libs/mini_tcp4u/mini_tcp4u.c:199-201 | without a whole message the result is above zero exactly when one byte of a header is all that arrives |
| `Framing.InFlight` | src/_libs/mini_tcp4u/mini_tcp4u.c:147-215 | over every run the bytes in flight are the frames of the messages not yet received |
| `Framing.MessagesArriveInOrder` | src/_libs/mini_tcp4u/mini_tcp4u.c:147-215 | over every run of whole calls, in every fragmentation, the messages arrive byte for byte in order, and a receive fails only when none is left |
| `Framing.EveryInterleaving` | src/_libs/mini_tcp4u/mini_tcp4u.c:147-215 | in every interleaving of the single steps of sender, network and receiver the messages received are the first of those sent, and all of them once everything is taken |

## Left out

- The GUI, the installers, sockets, adapters, the registry and INI file, the event log and the password challenge.
- The TFTP block and acknowledgement exchange; a worker's exit is a step that clears its flag.
- SNTP, syslog, settings, thread start-up and the command line.
- DHCP: lease numbers in the INI file, LoadLeases and ReorderLeases, which only persist the database; hardware addresses of other lengths than six bytes; a clock that moves while a message is processed; the GUI's delete or PingRange running while the DHCP thread is inside the database.
- DHCP: a message's type and requested address are inputs of `DhcpProtocol`; how they are found in its options is the subject of `DhcpOptions`.
- DHCP: the boot file name, server address field and logging of an answer; TranslateParam2Value, TranslateExp, inet_addr and the size of the boot file are inputs with the bounds the source gives them.
- `DhcpReply.DHCPOptionsReply`: answers too long for the options field are excluded, since the source writes behind the field; and only the log lines use the relay agent sub-options it parses.
- `LeaseDatabase.Qsort`: the C library's qsort and bsearch are modelled by an insertion sort and a bisection; callers use their contracts alone.
- `ConsoleChannel.OwnerCanRelease`: says that the release can always be reached; that a fair schedule reaches it is `ChannelLiveness.OwnerReleases`.
- Channel: GUI reconnection, service shutdown, requests sent by the console thread itself, and the wait for a connected GUI.
- `MessageQueue.MsgList.TryPush`: message ids are unbounded; the sleep between tries is a step of the channel model; after four refused tries the source returns an undefined id, which the channel model does not use.
- MD5: wiping of the local word array.
- `TransferTable.TableSafety`: the limit dwMaxTftpTransfers stays constant; statistics and multicast are omitted; a datagram refused by TftpMainFilter counts as one that could not be received.
- `InternetChecksum.in_cksum`: a little-endian machine, and lengths whose sum fits the int.
- `DnsQname.ExplodeQname`: the test for null pointers; the test for compression is covered by that for labels above 63.
- `Framing.MessagesArriveInOrder`: like `EveryInterleaving` it is about sends that do not fail and headers and types that go out as a whole; what the methods do otherwise is in their contracts.
- `Framing.Connection.TcpPPRecv`: time-outs are not distinguished from other failures; when the announced message is longer than the buffer the model stops.
