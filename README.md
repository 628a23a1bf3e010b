# eISCP proxy: a Dafny model of the discovery relay

eISCP is Onkyo's protocol for controlling audio equipment over IP. The eISCP proxy relays its UDP discovery across
network interfaces.

- On each interface named with `-i`, the proxy broadcasts the discovery query `!xECNQSTN` to port 60128.
- It caches every discovery response it hears, keyed on the responder's IP address and port.
- When another host sends a query, the proxy replays every cached response to that host. Each replay is a raw IPv4/UDP
  datagram forged with the original responder's address as its source.
- Cache entries not refreshed within four timeout intervals are evicted.

This project models the core of the relay and proves properties of the model:

| module | file | models |
|---|---|---|
| `Types` | `types.dfy` | `types.h`: the port and buffer constants, socket addresses, device and interface records, and the process `Environment` as a class whose fields the module-level methods of the other modules update in place |
| `RawPacket` | `rawpacket.dfy` | `rawpacket.c`: the Internet checksum (RFC 1071) as a loop over an `array`, and `send_raw_udp_packet` filling the 4096-byte packet buffer |
| `Registry` | `registry.dfy` | the device list as values: the update by a discovery response and the stale-entry sweep, with their invariants |
| `PacketProcessing` | `packet_processing.dfy` | `packet_processing.c`: datagram classification, the drain loop, the in-place list updates, the replay pass and the discovery broadcast |
| `Cmdline` | `cmdline.dfy` | `cmdline.c`: interface-name validation, `addInterface`, the `strtok` comma split of `-i` and the option defaults |
| `EventLoop` | `eventloop.dfy` | `main.c`: the start-up guards, the first discovery pass, and one loop step per `select` outcome |

How the model represents the C code:

- The linked lists become sequences held head first. `Environment.devices` and `Environment.interfaces` are `seq`
  fields that the methods reassign.
- The state-changing functions of the C code are methods:
  - `handle_discovery_response`, `remove_stale_devices`, `reply_to_discovery`, `process_received_packet`,
    `send_discovery_packets` and `handle_command_line` work on the `Environment` object;
  - `checksum` and the packet filling work on an `array` of bytes.
- Each method is proved against a function on values (`RecordResponse`, `Survivors`, `Drain`, `DiscoveryPass`,
  `ChecksumOf`, `ForgedFrame`, `ConfigureAll`). The properties the relay relies on are proved as lemmas about those
  functions.
- Everything outside the process is a parameter: the clock, the outcome of every socket call and allocation, the
  datagrams a drain finds, the results of `select`, the effective uid, `atoi`, and the address each interface name
  resolves to.
- The host byte order is a parameter of the checksum and of the packet forger. As a modelling choice, the event loop
  fixes it to little-endian (`Types.HOST_ORDER`); the code does not name an order. Big-endian hosts are covered only by
  the lemmas that take a `ByteOrder` parameter.

The model follows the code where a reader might expect otherwise:

- A response from a source already in the registry only refreshes that entry's timestamp.
- The cached payload is never replaced by a newer one (`packet_processing.c:167-176`). `Registry.RecordTwice` states
  this.

## Model

| member | source | states |
|---|---|---|
| `Types.NetU16` | rawpacket.c:78 | the two bytes `htons` leaves in memory read back, most significant first, as the value |
| `Types.NetU32` | rawpacket.c:71-72 | the four bytes of an address as `sockaddr_in` holds it read back, big-endian, as the dotted-quad value |
| `Types.StoreU16` | rawpacket.c:65 | a native 16-bit store writes two bytes that a native load reads back as the stored value |
| `Types.Htonl` | rawpacket.c:66 | `htonl` is the identity on a big-endian host; on a little-endian host the result's bytes, least significant first, are the value's bytes in network order |
| `Types.Environment.constructor` | main.c:34 | the environment starts with no devices and no interfaces, so the registry invariant holds |
| `RawPacket.WordsSum` | rawpacket.c:23-24 | the sum of `n` 16-bit words the loop adds is at most `n * 0xFFFF` |
| `RawPacket.Fold` | rawpacket.c:27-28 | the two carry folds give a 16-bit value congruent to the sum modulo 0xFFFF that is zero only for a zero sum |
| `RawPacket.Checksum` | rawpacket.c:18-31 | `checksum(buf, len)` returns `ChecksumOf` of the first `len` bytes, and of no bytes when `len` is not positive |
| `RawPacket.AddWords` | rawpacket.c:23-24 | the word loop stops at the last whole word, with at most one byte left, holding the word sum modulo 2^32 |
| `RawPacket.WordsSumStep` | rawpacket.c:24 | adding the next word to the 32-bit accumulator keeps it equal to the word sum modulo 2^32 |
| `RawPacket.RawSumInSteps` | rawpacket.c:23-26 | reducing the accumulator modulo 2^32 after the words and again after the odd byte gives the same sum as reducing once |
| `RawPacket.RawSumFromWords` | rawpacket.c:25-26 | an odd trailing byte added on its own completes the accumulator |
| `RawPacket.ChecksumInSteps` | rawpacket.c:25-30 | the odd-byte addition, the two folds and the complement, as written, compute `ChecksumOf` |
| `RawPacket.FoldInSteps` | rawpacket.c:27-28 | the first fold stays below 0x1FFFF, and the second fold, cut to 16 bits, is `Fold` |
| `RawPacket.WordsSumPut` | rawpacket.c:73 | writing a value into a zeroed word adds that value to every word sum that covers the word |
| `RawPacket.WordsSumChanged` | rawpacket.c:73 | two buffers that differ only in one zero word differ in their word sums by that word's new value |
| `RawPacket.RawSumPut` | rawpacket.c:70-73 | writing a value into a zeroed 16-bit field adds it to the accumulator, which does not wrap for at most 0xFFFF bytes |
| `RawPacket.RawSumNoWrap` | rawpacket.c:20-26 | for at most 0xFFFF bytes the 32-bit accumulator never wraps |
| `RawPacket.FoldOfComplement` | rawpacket.c:27-29 | adding the complement of a sum's fold to the sum gives a fold of all ones |
| `RawPacket.ChecksumVerifies` | rawpacket.c:70-73 | once the checksum of a buffer with a zeroed field is stored into that field, the checksum of the buffer is 0 |
| `RawPacket.FoldAdd` | rawpacket.c:24 | adding a word to the accumulator is one's-complement addition (section 1 of RFC 1071) on the folds |
| `RawPacket.OnesWordsIsFold` | rawpacket.c:23-28 | the fold of the word sum equals the word-by-word one's-complement sum with end-around carry |
| `RawPacket.ChecksumIsOnesComplement` | rawpacket.c:18-31 | `checksum` is the complement of the one's-complement sum of the buffer, for every length a 16-bit length field allows |
| `RawPacket.IpHeader` | rawpacket.c:62-72 | the IPv4 header is `sizeof(struct iphdr)`, 20 bytes |
| `RawPacket.UdpHeader` | rawpacket.c:76-79 | the UDP header is `sizeof(struct udphdr)`, 8 bytes |
| `RawPacket.ChecksumImage` | rawpacket.c:73 | the checksum runs over `tot_len` = 28 + payload length bytes |
| `RawPacket.ForgedFrame` | rawpacket.c:50-82 | the forged frame is 28 + payload length bytes |
| `RawPacket.OnWire16` | rawpacket.c:65 | a native 16-bit store reads unchanged in network order on a big-endian host and byte-swapped on a little-endian one |
| `RawPacket.IpHeaderFields` | rawpacket.c:62-72 | the header parses as version 4, ihl 5, tos 0, no fragmentation, ttl 255, protocol UDP, with the given addresses, native-order total length and checksum, and identification 54321 on a big-endian host and 0 on a little-endian one |
| `RawPacket.IdField` | rawpacket.c:66 | `htonl(54321)` stored into the 16-bit `id` reads 54321 on a big-endian host and 0 on a little-endian one |
| `RawPacket.UdpHeaderFields` | rawpacket.c:76-79 | the UDP header parses as the two ports, length 8 + payload length and checksum 0 |
| `RawPacket.ForgedFrameFields` | rawpacket.c:50-79 | the forged frame parses as the fixed IPv4 fields with the device as source and the requester as destination, then the UDP fields, then the payload verbatim at offset 28 |
| `RawPacket.ForgedChecksumCoversImage` | rawpacket.c:70-79 | the stored checksum verifies over the first 20 bytes, then the bytes the buffer held at offset 20 before the UDP header was written, then the payload |
| `RawPacket.RawSend` | rawpacket.c:44-91 | something is handed to `sendto` if and only if `socket` and `setsockopt` succeed; it goes to the destination, is 28 + payload length bytes long and ends in the payload |
| `RawPacket.SendRawUdpPacket` | rawpacket.c:34-100 | the frame handed over is `RawSend`'s, and the result is 28 + payload length when `sendto` succeeds and -1 otherwise |
| `RawPacket.FillPacket` | rawpacket.c:50-82 | the first `packet_len` = 28 + payload length bytes of the buffer are the forged frame, with the checksum over the old bytes at offset 20; the rest is untouched |
| `RawPacket.FillImage` | rawpacket.c:56-72 | after the `memcpy` and the IP field stores, the buffer starts with the zero-checksum header, the old bytes at offset 20 and the payload, and `tot_len` reads back 28 + payload length |
| `RawPacket.Copy` | rawpacket.c:59 | `memcpy` overwrites exactly the destination range |
| `RawPacket.ImageLayout` | rawpacket.c:56-72 | the payload copy then the header stores leave header, old bytes and payload in order and the buffer beyond them unchanged |
| `RawPacket.TotLenField` | rawpacket.c:82 | `packet_len`, read back from `iph->tot_len`, is 28 + payload length |
| `RawPacket.IpHeaderWithCheck` | rawpacket.c:73 | storing the checksum into the zeroed `check` field gives the header with that checksum |
| `RawPacket.FrameLayout` | rawpacket.c:73-79 | the checksum store and the UDP header stores turn the checksum image into the forged frame |
| `Registry.FindDevice` | packet_processing.c:167-169 | the search stops at the first entry whose IP address and port both match, and finds nothing exactly when no entry matches |
| `Registry.RecordExisting` | packet_processing.c:167-176 | for a known source only that entry's timestamp changes; its payload, the length and every other entry stay as they were |
| `Registry.RecordNew` | packet_processing.c:186-204 | a new source with both allocations succeeding puts one entry holding the payload verbatim and `now` at the head, with the old list after it |
| `Registry.RecordAllocationFailure` | packet_processing.c:180-195 | when either allocation fails the list is exactly as before |
| `Registry.RecordKeepsUnique` | packet_processing.c:165-212 | a response keeps one entry per (IP, port) |
| `Registry.RecordIsSeen` | packet_processing.c:165-212 | after a response that did not fail for memory, exactly one entry has that source, and it was last seen at `now` |
| `Registry.RecordKeepsSources` | packet_processing.c:165-212 | a response never removes an entry |
| `Registry.RecordTwice` | packet_processing.c:167-176 | two responses from one new source leave one entry with the first payload and the second time |
| `Registry.Survivors` | packet_processing.c:234-267 | the sweep never lengthens the list |
| `Registry.SurvivorsAppend` | packet_processing.c:239-266 | sweeping a list in two parts sweeps each part and keeps their order |
| `Registry.SurvivorsMembership` | packet_processing.c:237-243 | an entry survives if and only if it was in the list and `now - timestamp <= 4 * timeout`; an entry seen exactly four intervals ago survives |
| `Registry.SurvivorsKeepUnique` | packet_processing.c:234-267 | the sweep keeps one entry per (IP, port) |
| `Registry.SurvivorsIdempotent` | packet_processing.c:234-267 | sweeping again at the same time removes nothing more |
| `PacketProcessing.OwnTrafficIgnored` | packet_processing.c:73-80 | a datagram whose sender IP is an interface's IP is ignored, whatever its bytes and its source port |
| `PacketProcessing.QueryExactly` | packet_processing.c:103 | a datagram is a query if and only if it is foreign, at least 25 bytes long, starts with "ISCP" and has "!xECNQSTN" at offset 16 |
| `PacketProcessing.ResponseExactly` | packet_processing.c:106 | a datagram is a response if and only if it is foreign, starts with "ISCP" and carries all of "!1ECN" at offset 16; no query is a response |
| `PacketProcessing.DiscoveryPayloadClassified` | packet_processing.c:116-118 | the relay's own 26-byte broadcast is a query to any other host and self-originated to an interface of its own |
| `PacketProcessing.AsWrittenAgreesExceptAt20` | packet_processing.c:83-109 | the classification as written agrees with `Classify` on every datagram length but 20 |
| `PacketProcessing.StaleByteDecidesResponse` | packet_processing.c:106 | the same 20-byte datagram is cached as a response or ignored depending on the buffer byte after it |
| `PacketProcessing.HandleDiscoveryResponse` | packet_processing.c:165-212 | the device list becomes `RecordResponse` of the old list; nothing else in the environment changes |
| `PacketProcessing.RemoveStaleDevices` | packet_processing.c:234-267 | the device list becomes `Survivors` of the old list; nothing else in the environment changes |
| `PacketProcessing.SweepStep` | packet_processing.c:243-265 | unlinking a stale node, or stepping past a live one, extends the swept prefix by one device |
| `PacketProcessing.ReplayedFrame` | packet_processing.c:224 | a replay goes to the requester as an IPv4/UDP datagram from the device's IP and port, carrying the cached payload verbatim |
| `PacketProcessing.ReplyToDiscovery` | packet_processing.c:214-232 | one send per cached device in list order, each a replay of that device's payload from its address to the requester, whatever earlier sends returned |
| `PacketProcessing.ReplayPassExtend` | packet_processing.c:222-231 | the replays of a prefix of the list, followed by the next device's replay, are the replays of the longer prefix |
| `PacketProcessing.ReplayDevice` | packet_processing.c:224-230 | one loop iteration hands over the forger's replay of the device |
| `PacketProcessing.DrainKeepsUnique` | packet_processing.c:64-110 | a drain keeps one entry per (IP, port) |
| `PacketProcessing.DrainKeepsSources` | packet_processing.c:64-110 | a drain never removes a source from the registry |
| `PacketProcessing.DrainWithoutResponses` | packet_processing.c:102-109 | datagrams that are not responses leave the registry unchanged |
| `PacketProcessing.DrainKeepsFit` | packet_processing.c:106-108 | if every response is at most 4068 bytes, every cached payload still fits the forger's buffer |
| `PacketProcessing.OversizedResponseIsCached` | packet_processing.c:190-197 | a 4069-byte response passes the classifier and is cached whole, though its replay would not fit the 4096-byte packet |
| `PacketProcessing.ReactionsExtend` | packet_processing.c:64-110 | the reactions to the datagrams so far, followed by the reaction to the next one, are the reactions to one more datagram |
| `PacketProcessing.SentFromOwnInterface` | packet_processing.c:73-80 | `doIgnore` is set if and only if some interface has the sender's IP |
| `PacketProcessing.HandleDatagram` | packet_processing.c:73-109 | one datagram changes the registry as `Apply` says and gets a replay pass, of the registry as it stood, if and only if it is a query |
| `PacketProcessing.PayloadsFitAfterApply` | packet_processing.c:106-108 | one datagram whose response, if any, is small enough keeps every cached payload replayable |
| `PacketProcessing.ProcessReceivedPacket` | packet_processing.c:58-111 | the registry becomes `Drain` of the queued datagrams in order; each query, and only a query, gets a replay of the registry as it stood at that moment |
| `PacketProcessing.DiscoveryPass` | packet_processing.c:127-162 | a discovery pass keeps the number of interfaces |
| `PacketProcessing.SendDiscoveryPackets` | packet_processing.c:113-163 | the broadcasts sent and the interface list left are `DiscoveryPass`'s; the devices and settings are unchanged |
| `PacketProcessing.DiscoveryPassShape` | packet_processing.c:116-153 | every broadcast carries the 26-byte query to 255.255.255.255:60128 from port 60128 of an interface's IP; a pass changes only interface ports, to 60128 |
| `PacketProcessing.DiscoveryPassAllSucceed` | packet_processing.c:127-162 | when every call succeeds, one broadcast per interface in list order, each interface bound to port 60128 |
| `PacketProcessing.DiscoveryPassAbandons` | packet_processing.c:135-150 | a failed `setsockopt` or `bind` ends the pass: no later interface is bound or sends |
| `Cmdline.ValidNameChars` | cmdline.c:59-67 | a name is valid if and only if every character is a lower-case letter, a digit or '.', so the empty name is valid |
| `Cmdline.AddInterface` | cmdline.c:69-83 | an invalid name leaves the list unchanged; a valid one adds a head node with that name, still unresolved, in front of the old list |
| `Cmdline.TokenLength` | cmdline.c:37 | a token runs up to the first comma or the end of the string |
| `Cmdline.Tokens` | cmdline.c:37-41 | `strtok` never yields an empty token or one containing a comma |
| `Cmdline.TokenLengthUnique` | cmdline.c:37 | any length with `TokenLength`'s properties is `TokenLength` |
| `Cmdline.TokensOfWord` | cmdline.c:37-41 | a non-empty argument without commas is one token |
| `Cmdline.TokensAtComma` | cmdline.c:37-41 | the tokens of `a,b` are the tokens of `a` followed by the tokens of `b`, so empty fields vanish |
| `Cmdline.TokensAtCommaWord` | cmdline.c:37-41 | the same, when `a` starts with a token |
| `Cmdline.AddAllReverses` | cmdline.c:38-41 | adding tokens one by one puts the valid ones in reverse order in front of the list and drops the invalid ones |
| `Cmdline.AddAllAppend` | cmdline.c:34-42 | the tokens of a second `-i` are added after those of the first |
| `Cmdline.Handled` | cmdline.c:32-56 | the loop handles the options up to, not including, the first `-h` or rejected option |
| `Cmdline.ExitOf` | cmdline.c:49-54 | the process exits during parsing if and only if an option is `-h` or rejected |
| `Cmdline.ExitAt` | cmdline.c:49-54 | `-h` exits with success and a rejected option with failure, whatever follows |
| `Cmdline.DebugIff` | cmdline.c:43-45 | debugging is on if and only if `-d` was given |
| `Cmdline.LastTimeout` | cmdline.c:46-48 | finds the last `-t`, or reports that there is none |
| `Cmdline.TimeoutIsLast` | cmdline.c:46-48 | the timeout is `atoi` of the last `-t` argument, unchecked, or 5 without one |
| `Cmdline.InterfacesReversed` | cmdline.c:34-42 | the interface list holds the valid names of every `-i` argument, last one first |
| `Cmdline.InterfacesAreAddAll` | cmdline.c:34-42 | the interface list is every `-i` token added in option order |
| `Cmdline.AddTokens` | cmdline.c:37-41 | the `strtok` loop adds each token of the argument in turn; nothing else changes |
| `Cmdline.ApplyOption` | cmdline.c:33-48 | one `-i`, `-d` or `-t` changes the settings as `Configure` says, and not the devices |
| `Cmdline.HandleCommandLine` | cmdline.c:25-57 | the exit status is `ExitOf(opts)`; the settings are the defaults configured by the options handled; the device list is empty |
| `EventLoop.FollowsAppend` | main.c:71-94 | the iterations for some outcomes, then one more iteration, are the iterations for one more outcome |
| `EventLoop.ActionsInContext` | main.c:71-94 | every wait lasts `timeout_interval`; an eviction follows a wait for a timeout and precedes a broadcast; a drain follows a wait on readiness; an exit ends the run with failure on a `select` error |
| `EventLoop.ExitIffError` | main.c:80-83 | the loop exits if and only if `select` fails |
| `EventLoop.NextKeepsUnique` | main.c:80-93 | every iteration keeps one entry per (IP, port) |
| `EventLoop.OnlyTimeoutEvicts` | main.c:88-92 | an iteration that is not a timeout removes no device |
| `EventLoop.TimeoutEvicts` | main.c:84-87 | a timeout keeps exactly the devices that are not stale at its time |
| `EventLoop.SurvivorsFit` | main.c:86 | the sweep keeps every cached payload replayable |
| `EventLoop.Step` | main.c:72-93 | one iteration waits `timeout_interval`, then evicts before broadcasting on a timeout, drains on readiness, or exits with failure on an error; the registry invariant is kept |
| `EventLoop.EventsFitResponses` | packet_processing.c:106 | a datagram taken for a response has the response's shape |
| `EventLoop.Resolve` | main.c:51 | each interface keeps its name and gets the address its name resolves to |
| `EventLoop.Run` | main.c:33-94 | exits with failure when not root; exits as parsing says; exits with failure with no interfaces, when `daemonize` fails with debugging off, or when the listener fails; otherwise listens, sends the discovery pass of the resolved interfaces before the first wait, and runs the loop, which ends with failure exactly at the first `select` error |
| `EventLoop.Loop` | main.c:71-94 | the trace is the iterations for the outcomes up to the first error, and the status is failure if and only if an error occurs; the final device and interface lists are `After` of those outcomes, with one entry per source, payloads replayable and the timeout and debug flag unchanged |
| `EventLoop.Iterate` | main.c:72-93 | one iteration extends the trace by that outcome's actions and the lists by that outcome's `NextDevices` and `NextInterfaces`, keeping the registry invariant |
| `EventLoop.AfterSnoc` | main.c:71-94 | the lists after one more outcome are that outcome's update of the lists after the earlier ones |
| `EventLoop.AfterKeepsUnique` | main.c:71-94 | any number of iterations keeps one entry per (IP, port) |
| `EventLoop.AfterWithoutTimeout` | main.c:80-93 | iterations without a timeout leave the interface list as it was and drop no source |
| `EventLoop.FirstError` | main.c:81-83 | the position of the first `select` error, or the number of outcomes |
| `EventLoop.FirstErrorAt` | main.c:81-83 | an error with none before it is the first error |

## Left out

- `interface.c` is not part of this model. The `ioctl(SIOCGIFADDR)` lookup that fills in interface addresses is the
  parameter `addressOf` of `EventLoop.Run`. The exits that resolution takes on failure are not modelled.
- `setup_listener` (`packet_processing.c:27-56`) is the boolean `listenerOk`. Its three failure exits are one `Exit(Failure)`.
- `daemonize` (`utilities.c:87-157`) is the boolean `daemonOk` of `EventLoop.Run`, consulted only when debugging is
  off (`main.c:58-59`). It says whether the detached daemon is running: both `fork`s, `setsid`, opening
  `/var/run/eiscp-proxy.pid` and locking it succeeded. Each of those failures is one `Exit(Failure)`. The two parent
  processes, which exit with success after each `fork` (`utilities.c:100`, `utilities.c:121`), are not traced: the
  trace follows the process that goes on to listen. The `umask`, `chdir`, PID write and descriptor closing are left out.
- `logger`, `hexDump`, `dump_device_list`, `print_help` and every `fprintf` are left out. They only log or print.
- Sockets are never closed in the model. The C code also leaks the socket on the early `return -1` of
  `send_raw_udp_packet`.
- Time is the integer `now`, and `difftime` is integer subtraction. The clock is an argument of each event.
- `getopt`, `strtok` and `atoi`:
  - options come already split into a sequence of `Opt`;
  - `atoi` is a function parameter;
  - `strtok`'s splitting is modelled by `Cmdline.Tokens`.
- The `ipAddress` text field of an interface node is never read by the core and is left out.
- The payload of a cached device is a sequence; `payloadSize` is its length.
- The header field stores are written as whole 20-byte and 8-byte images copied into the buffer. Bit-field layout is
  folded into the first byte (0x45).
- Linux raw sockets with `IP_HDRINCL` may rewrite `tot_len`, `check` and `id` before transmission. The model gives the
  buffer handed to `sendto`, not the bytes on the wire.
- The event loop runs over a finite sequence of `select` outcomes. Runs that never end are represented by their finite
  prefixes.
- The `malloc` failure exit of `addInterface` (`cmdline.c:76-79`) and the unchecked `strdup` are not modelled.
  Allocation always succeeds there.
- RemoveStaleDevices: does not model the `int` overflow of `4 * timeout_interval`, because integers are unbounded
  here. A timeout above 536870911 seconds overflows in the C code.
- SendRawUdpPacket: a short `sendto` is not modelled. On success the model returns the whole `packet_len`, while the C
  code returns whatever count `sendto` reports.
- SendRawUdpPacket: requires a payload of at most 4068 bytes. The C code copies it into `packet[4096]` with no bound
  check (`rawpacket.c:38`, `rawpacket.c:59`), and a longer payload overflows the stack buffer.
- ReplyToDiscovery: requires every cached payload to be at most 4068 bytes, as `SendRawUdpPacket` does.
  `PacketProcessing.OversizedResponseIsCached` shows that the relay itself never ensures this.
- ReplayDevice: requires the same bound for the one device it replays.
- HandleDatagram: classifies with the corrected response test, which needs at least 21 bytes, not the code's
  `receivedLen >= 20` (`packet_processing.c:106`). A 20-byte datagram whose byte 20 would complete "!1ECN" from an
  earlier datagram is ignored here but cached by the code (see "## Findings"; `PacketProcessing.ClassifyAsWritten`
  carries the code's test).
- ProcessReceivedPacket: the drain inherits `HandleDatagram`'s corrected response test, not the code's `>= 20` test.
- Step: a `Ready` outcome drains with the same corrected test; so do `Loop` and `Run`.
- HandleDatagram: requires a datagram classified as a response to be at most 4068 bytes, so that the registry stays
  replayable.
- ProcessReceivedPacket: requires every response among the queued datagrams to be at most 4068 bytes, for the same
  reason.
- Step: requires the same of the datagrams of a `Ready` outcome.
- Run: requires every datagram shaped like a response to be at most 4068 bytes. This includes datagrams from the
  relay's own interfaces, which are ignored anyway.
- Loop: requires the same as `Run`.

## Findings

| source | as written | input that shows it | evidently intended | confidence | as-written member | corrected member |
|---|---|---|---|---|---|---|
| packet_processing.c:106 | the response test accepts `receivedLen >= 20` but compares five bytes from offset 16, so byte 20 is read from whatever an earlier datagram left in the buffer | a 20-byte datagram "ISCP", twelve zero bytes, "!1EC", received when the buffer byte at offset 20 is 'N' (cached as a response) or 0 (ignored) | a response needs at least 21 bytes, so that all of "!1ECN" lies inside the datagram | not executed | `PacketProcessing.StaleByteDecidesResponse` | `PacketProcessing.ResponseExactly` |
