/** packet_processing.c: the classification of received datagrams, the
    device registry kept in `Environment.devices`, the replay of cached
    responses and the discovery broadcast. */
module PacketProcessing {
  import opened Types
  import opened RawPacket
  import opened Registry

  // ---------------------------------------------------------------------------
  // Signatures

  /** "ISCP", the first four bytes of every eISCP packet. */
  const ISCP_MAGIC: seq<byte> := [0x49, 0x53, 0x43, 0x50]
  /** Offset of the message in an eISCP packet: after the 16-byte header. */
  const MESSAGE_OFFSET: nat := 16
  /** "!xECNQSTN": a discovery query from any kind of unit. */
  const QUERY_SIGNATURE: seq<byte> := [0x21, 0x78, 0x45, 0x43, 0x4E, 0x51, 0x53, 0x54, 0x4E]
  /** "!1ECN": the start of a discovery response. */
  const RESPONSE_SIGNATURE: seq<byte> := [0x21, 0x31, 0x45, 0x43, 0x4E]

  /** The 26 bytes `send_discovery_packets` broadcasts: "ISCP", header size 16,
      data size 10, version 1, then "!xECNQSTN" and a line feed. */
  const DISCOVERY_PAYLOAD: seq<byte> :=
    [0x49, 0x53, 0x43, 0x50, 0x00, 0x00, 0x00, 0x10,
     0x00, 0x00, 0x00, 0x0A, 0x01, 0x00, 0x00, 0x00,
     0x21, 0x78, 0x45, 0x43, 0x4E, 0x51, 0x53, 0x54, 0x4E, 0x0A]

  /** `bs` holds `sig` at offset `off`, inside its first `len` bytes. Every
      signature above is free of NUL bytes, so this is what
      `strncmp(bs + off, sig, |sig|) == 0` decides on such a buffer. */
  predicate HasAt(bs: seq<byte>, len: nat, off: nat, sig: seq<byte>)
    requires len <= |bs|
  {
    len >= off + |sig| && bs[off..off + |sig|] == sig
  }

  // ---------------------------------------------------------------------------
  // Classification

  /** What `process_received_packet` does with one datagram. */
  datatype Kind = SelfOriginated | Malformed | DiscoveryQuery | DiscoveryResponse | Unrecognised

  /** The sender's IP is the address of one of the relay's own interfaces;
      the port is not compared. */
  predicate FromOwnInterface(sender: SockAddr, ifs: seq<Interface>)
  {
    exists i :: 0 <= i < |ifs| && ifs[i].address.ip == sender.ip
  }

  /** The fate of datagram `data` from `sender`: ignored when it comes from an
      own interface or does not start with "ISCP"; a query when "!xECNQSTN"
      follows the 16-byte header; else a response when "!1ECN" does. The
      response test asks for all five bytes of "!1ECN" inside the datagram,
      which the code as written does not (see `ClassifyAsWritten`). */
  function Classify(data: seq<byte>, sender: SockAddr, ifs: seq<Interface>): Kind
  {
    if FromOwnInterface(sender, ifs) then SelfOriginated
    else if !HasAt(data, |data|, 0, ISCP_MAGIC) then Malformed
    else if HasAt(data, |data|, MESSAGE_OFFSET, QUERY_SIGNATURE) then DiscoveryQuery
    else if HasAt(data, |data|, MESSAGE_OFFSET, RESPONSE_SIGNATURE) then DiscoveryResponse
    else Unrecognised
  }

  /** A datagram whose sender IP is an interface's IP is ignored whatever its
      bytes and whatever its source port. */
  lemma OwnTrafficIgnored(data: seq<byte>, sender: SockAddr, ifs: seq<Interface>, k: nat)
    requires k < |ifs| && ifs[k].address.ip == sender.ip
    ensures forall port: u16 :: Classify(data, SockAddr(sender.ip, port), ifs) == SelfOriginated
  {
    forall port: u16 ensures Classify(data, SockAddr(sender.ip, port), ifs) == SelfOriginated {
      assert ifs[k].address.ip == SockAddr(sender.ip, port).ip;
    }
  }

  /** A query is exactly a foreign datagram starting with "ISCP" that carries
      "!xECNQSTN" at offset 16. */
  lemma QueryExactly(data: seq<byte>, sender: SockAddr, ifs: seq<Interface>)
    ensures Classify(data, sender, ifs) == DiscoveryQuery
            <==> !FromOwnInterface(sender, ifs) && |data| >= 25
                 && data[..4] == ISCP_MAGIC && data[16..25] == QUERY_SIGNATURE
  {
  }

  /** A response is exactly a foreign datagram starting with "ISCP" that
      carries "!1ECN" at offset 16; no query is a response, because the byte
      at offset 17 is 'x' in one and '1' in the other. */
  lemma ResponseExactly(data: seq<byte>, sender: SockAddr, ifs: seq<Interface>)
    ensures Classify(data, sender, ifs) == DiscoveryResponse
            <==> !FromOwnInterface(sender, ifs) && |data| >= 21
                 && data[..4] == ISCP_MAGIC && data[16..21] == RESPONSE_SIGNATURE
  {
    if |data| >= 25 && data[16..21] == RESPONSE_SIGNATURE {
      assert data[17] == data[16..21][1] == RESPONSE_SIGNATURE[1];
      assert data[16..25][1] == data[17];
      assert data[16..25] != QUERY_SIGNATURE by {
        assert QUERY_SIGNATURE[1] != RESPONSE_SIGNATURE[1];
      }
    }
  }

  /** The relay's own broadcast is a query to every other relay, and is
      ignored by this one when it hears it back on an interface. */
  lemma DiscoveryPayloadClassified(sender: SockAddr, ifs: seq<Interface>)
    ensures Classify(DISCOVERY_PAYLOAD, sender, ifs)
            == if FromOwnInterface(sender, ifs) then SelfOriginated else DiscoveryQuery
  {
    assert DISCOVERY_PAYLOAD[..4] == ISCP_MAGIC;
    assert DISCOVERY_PAYLOAD[16..25] == QUERY_SIGNATURE;
  }

  /** The classification as the code writes it, over the whole receive
      buffer of which the datagram occupies the first `receivedLen` bytes:
      the response test lets a 20-byte datagram through while comparing five
      bytes from offset 16, so byte 20, left over from an earlier datagram,
      takes part. */
  function ClassifyAsWritten(buffer: seq<byte>, receivedLen: nat, sender: SockAddr, ifs: seq<Interface>): Kind
    requires |buffer| == BUFFER_SIZE && receivedLen <= BUFFER_SIZE
  {
    if FromOwnInterface(sender, ifs) then SelfOriginated
    else if !HasAt(buffer, receivedLen, 0, ISCP_MAGIC) then Malformed
    else if HasAt(buffer, receivedLen, MESSAGE_OFFSET, QUERY_SIGNATURE) then DiscoveryQuery
    else if receivedLen >= 20 && buffer[16..21] == RESPONSE_SIGNATURE then DiscoveryResponse
    else Unrecognised
  }

  /** The code as written agrees with `Classify` on every datagram except
      those of exactly 20 bytes. */
  lemma AsWrittenAgreesExceptAt20(buffer: seq<byte>, receivedLen: nat, sender: SockAddr, ifs: seq<Interface>)
    requires |buffer| == BUFFER_SIZE && receivedLen <= BUFFER_SIZE && receivedLen != 20
    ensures ClassifyAsWritten(buffer, receivedLen, sender, ifs) == Classify(buffer[..receivedLen], sender, ifs)
  {
    var data := buffer[..receivedLen];
    if receivedLen >= 4 {
      assert data[..4] == buffer[..4];
    }
    if receivedLen >= 25 {
      assert data[16..25] == buffer[16..25];
    }
    if receivedLen >= 21 {
      assert data[16..21] == buffer[16..21];
    }
  }

  /** The 20-byte datagram "ISCP", twelve zero bytes, "!1EC". */
  function ShortResponse(): (d: seq<byte>)
    ensures |d| == 20
  {
    ISCP_MAGIC + seq(12, _ => 0) + [0x21, 0x31, 0x45, 0x43]
  }

  /** A receive buffer holding `ShortResponse()` followed by `rest`. */
  function BufferWith(rest: byte): (b: seq<byte>)
    ensures |b| == BUFFER_SIZE
  {
    ShortResponse() + [rest] + seq(BUFFER_SIZE - 21, _ => 0)
  }

  /** The same 20-byte datagram from the same sender is cached as a response
      when the byte after it in the buffer is 'N' and ignored otherwise;
      `Classify` never treats it as a response. */
  lemma StaleByteDecidesResponse(sender: SockAddr, ifs: seq<Interface>)
    requires !FromOwnInterface(sender, ifs)
    ensures BufferWith(0x4E)[..20] == BufferWith(0)[..20] == ShortResponse()
    ensures ClassifyAsWritten(BufferWith(0x4E), 20, sender, ifs) == DiscoveryResponse
    ensures ClassifyAsWritten(BufferWith(0), 20, sender, ifs) == Unrecognised
    ensures Classify(ShortResponse(), sender, ifs) == Unrecognised
  {
    var d := ShortResponse();
    assert d[..4] == ISCP_MAGIC;
    assert BufferWith(0x4E)[..4] == ISCP_MAGIC && BufferWith(0)[..4] == ISCP_MAGIC;
    assert BufferWith(0x4E)[16..21] == RESPONSE_SIGNATURE;
    assert BufferWith(0)[16..21][4] == 0;
  }

  // ---------------------------------------------------------------------------
  // handle_discovery_response

  /** `handle_discovery_response`: refreshes the timestamp of the entry for
      `source`, or puts a new entry holding a copy of `payload` at the head of
      the list. `now` is `time(NULL)`; `nodeAllocOk` and `payloadAllocOk` are
      the outcomes of the two `malloc` calls. */
  method HandleDiscoveryResponse(source: SockAddr, env: Environment, payload: seq<byte>, now: int,
                                 nodeAllocOk: bool, payloadAllocOk: bool)
    modifies env
    ensures env.devices == RecordResponse(old(env.devices), source, payload, now, nodeAllocOk, payloadAllocOk)
    ensures env.interfaces == old(env.interfaces)
    ensures env.debuggingEnabled == old(env.debuggingEnabled) && env.timeoutInterval == old(env.timeoutInterval)
  {
    var i := 0;
    while i < |env.devices|
      invariant 0 <= i <= |env.devices| && env.devices == old(env.devices)
      invariant forall j :: 0 <= j < i ==> env.devices[j].source != source
    {
      var current := env.devices[i];
      if current.source.port == source.port && current.source.ip == source.ip {
        env.devices := env.devices[i := current.(timestamp := now)];
        return;
      }
      i := i + 1;
    }
    if !nodeAllocOk {
      return;
    }
    if !payloadAllocOk {
      return;
    }
    var newNode := Device(source, payload, now);
    env.devices := [newNode] + env.devices;
  }

  // ---------------------------------------------------------------------------
  // remove_stale_devices

  /** `remove_stale_devices`: unlinks every device last seen more than
      `4 * timeout_interval` seconds before `now`, walking the list once. */
  method RemoveStaleDevices(env: Environment, now: int)
    modifies env
    ensures env.devices == Survivors(old(env.devices), now, env.timeoutInterval)
    ensures env.interfaces == old(env.interfaces)
    ensures env.debuggingEnabled == old(env.debuggingEnabled) && env.timeoutInterval == old(env.timeoutInterval)
  {
    ghost var devs := env.devices;
    ghost var interval := env.timeoutInterval;
    var timeout := 4 * env.timeoutInterval;
    var current := 0;
    ghost var seen := 0;
    ghost var kept: seq<Device> := [];
    while current < |env.devices|
      invariant 0 <= seen <= |devs|
      invariant kept == Survivors(devs[..seen], now, interval)
      invariant env.devices == kept + devs[seen..] && current == |kept|
      invariant env.interfaces == old(env.interfaces) && env.timeoutInterval == interval
      invariant env.debuggingEnabled == old(env.debuggingEnabled)
      decreases |env.devices| - current
    {
      SweepStep(devs, seen, kept, env.devices, now, interval);
      if now - env.devices[current].timestamp > timeout {
        env.devices := env.devices[..current] + env.devices[current + 1..];
      } else {
        kept := kept + [devs[seen]];
        current := current + 1;
      }
      seen := seen + 1;
    }
    assert devs[..seen] == devs;
  }

  /** One step of the sweep: the node under `current` is the next unexamined
      device; unlinking it when stale, or stepping past it otherwise, extends
      the swept prefix by one. */
  lemma SweepStep(devs: seq<Device>, seen: nat, kept: seq<Device>, list: seq<Device>, now: int, timeoutInterval: int)
    requires seen < |devs| && kept == Survivors(devs[..seen], now, timeoutInterval)
    requires list == kept + devs[seen..]
    ensures |kept| < |list| && list[|kept|] == devs[seen]
    ensures IsStale(devs[seen], now, timeoutInterval) ==>
              && Survivors(devs[..seen + 1], now, timeoutInterval) == kept
              && list[..|kept|] + list[|kept| + 1..] == kept + devs[seen + 1..]
    ensures !IsStale(devs[seen], now, timeoutInterval) ==>
              && Survivors(devs[..seen + 1], now, timeoutInterval) == kept + [devs[seen]]
              && list == kept + [devs[seen]] + devs[seen + 1..]
  {
    assert devs[..seen + 1][..seen] == devs[..seen];
    assert devs[seen..] == [devs[seen]] + devs[seen + 1..];
    assert list[..|kept|] == kept;
    assert list[|kept| + 1..] == devs[seen + 1..];
  }

  // ---------------------------------------------------------------------------
  // reply_to_discovery

  /** Every cached payload fits the forger's 4096-byte buffer behind the two
      headers. */
  predicate PayloadsFit(devs: seq<Device>)
  {
    forall i :: 0 <= i < |devs| ==> |devs[i].payload| <= MAX_PAYLOAD
  }

  /** `t` is what the forger hands over when replaying device `d` to `dest`
      under outcomes `o`, whatever its stack buffer held. */
  ghost predicate Replayed(t: Option<Transmission>, d: Device, dest: SockAddr, o: RawOutcomes)
  {
    && |d.payload| <= MAX_PAYLOAD
    && exists stale: seq<byte> :: |stale| == UDP_HEADER_LEN
         && t == RawSend(d.source, dest, d.payload, stale, HOST_ORDER, o)
  }

  /** One replay per device, in list order: entry `j` replays device `j`
      under the outcomes of the `j`-th send. */
  ghost predicate ReplayPass(sends: seq<Option<Transmission>>, devs: seq<Device>, dest: SockAddr,
                             sys: nat -> RawOutcomes)
  {
    |sends| == |devs| && forall j :: 0 <= j < |sends| ==> Replayed(sends[j], devs[j], dest, sys(j))
  }

  lemma ReplayedBy(t: Option<Transmission>, d: Device, dest: SockAddr, o: RawOutcomes, stale: seq<byte>)
    requires |d.payload| <= MAX_PAYLOAD && |stale| == UDP_HEADER_LEN
    requires t == RawSend(d.source, dest, d.payload, stale, HOST_ORDER, o)
    ensures Replayed(t, d, dest, o)
  {
  }

  /** A replayed frame goes to the requester and reads, to whoever parses
      it, as an IPv4/UDP datagram from the device's address and port to the
      requester's address and port, carrying the cached payload verbatim. */
  lemma ReplayedFrame(t: Option<Transmission>, d: Device, dest: SockAddr, o: RawOutcomes)
    requires Replayed(t, d, dest, o) && t.Some?
    ensures t.value.to == dest
    ensures |t.value.frame| == HEADERS_LEN + |d.payload| && t.value.frame[HEADERS_LEN..] == d.payload
    ensures ParseIpHeader(t.value.frame).saddr == d.source.ip && ParseIpHeader(t.value.frame).daddr == dest.ip
    ensures ParseIpHeader(t.value.frame).protocol == IPPROTO_UDP
    ensures ParseUdpHeader(t.value.frame[IP_HEADER_LEN..])
            == UdpFields(d.source.port, dest.port, UDP_HEADER_LEN + |d.payload|, 0)
  {
    var stale: seq<byte> :| |stale| == UDP_HEADER_LEN && t == RawSend(d.source, dest, d.payload, stale, HOST_ORDER, o);
    ForgedFrameFields(d.source, dest, d.payload, stale, HOST_ORDER);
  }

  /** `reply_to_discovery`: forges, for every cached device in list order, a
      datagram from the device's address carrying its cached payload to the
      requester at `destAddr`. A failed send is only logged, so every device
      gets its attempt. `sys(j)` gives the outcomes of the `j`-th send. */
  method ReplyToDiscovery(destAddr: SockAddr, env: Environment, sys: nat -> RawOutcomes)
    returns (sends: seq<Option<Transmission>>)
    requires PayloadsFit(env.devices)
    ensures ReplayPass(sends, env.devices, destAddr, sys)
  {
    sends := [];
    var devs := env.devices;
    var j := 0;
    while j < |devs|
      invariant 0 <= j <= |devs| && |sends| == j
      invariant ReplayPass(sends, devs[..j], destAddr, sys)
    {
      var sendto := ReplayDevice(devs[j], destAddr, sys(j));
      ReplayPassExtend(sends, devs, destAddr, sys, sendto);
      sends := sends + [sendto];
      j := j + 1;
    }
    assert devs[..j] == devs;
  }

  /** A replay pass over a prefix of the list extends by the next device. */
  lemma ReplayPassExtend(sends: seq<Option<Transmission>>, devs: seq<Device>, dest: SockAddr,
                         sys: nat -> RawOutcomes, t: Option<Transmission>)
    requires |sends| < |devs| && ReplayPass(sends, devs[..|sends|], dest, sys)
    requires Replayed(t, devs[|sends|], dest, sys(|sends|))
    ensures ReplayPass(sends + [t], devs[..|sends| + 1], dest, sys)
  {
    var next := sends + [t];
    var j := |sends|;
    forall i | 0 <= i < j + 1 ensures Replayed(next[i], devs[..j + 1][i], dest, sys(i)) {
      if i < j {
        assert next[i] == sends[i] && devs[..j + 1][i] == devs[..j][i];
      }
    }
  }

  /** One iteration of the replay loop: `send_raw_udp_packet` with the
      device's address as source and its cached payload; what it returns is
      only logged. */
  method ReplayDevice(current: Device, destAddr: SockAddr, o: RawOutcomes) returns (sendto: Option<Transmission>)
    requires |current.payload| <= MAX_PAYLOAD
    ensures Replayed(sendto, current, destAddr, o)
  {
    var sent;
    ghost var stale;
    sent, sendto, stale := SendRawUdpPacket(current.source, destAddr, current.payload, HOST_ORDER, o);
    ReplayedBy(sendto, current, destAddr, o, stale);
  }

  // ---------------------------------------------------------------------------
  // process_received_packet

  /** A datagram the drain loop receives, with what the world answers while it
      is handled: the clock `handle_discovery_response` reads, its two
      allocations, and the outcomes of the sends of a replay. */
  datatype Arrival = Arrival(data: seq<byte>, sender: SockAddr, clock: int,
                             nodeAllocOk: bool, payloadAllocOk: bool, sys: nat -> RawOutcomes)

  /** The registry after one arrival: only a response changes it. */
  function Apply(devs: seq<Device>, ifs: seq<Interface>, a: Arrival): seq<Device>
  {
    if Classify(a.data, a.sender, ifs) == DiscoveryResponse then
      RecordResponse(devs, a.sender, a.data, a.clock, a.nodeAllocOk, a.payloadAllocOk)
    else
      devs
  }

  /** The registry after the arrivals, in order. */
  function Drain(devs: seq<Device>, ifs: seq<Interface>, arrivals: seq<Arrival>): seq<Device>
  {
    if |arrivals| == 0 then devs
    else Apply(Drain(devs, ifs, arrivals[..|arrivals| - 1]), ifs, arrivals[|arrivals| - 1])
  }

  /** Responses small enough to be replayed later. */
  predicate ResponsesFit(ifs: seq<Interface>, arrivals: seq<Arrival>)
  {
    forall k :: 0 <= k < |arrivals| && Classify(arrivals[k].data, arrivals[k].sender, ifs) == DiscoveryResponse
      ==> |arrivals[k].data| <= MAX_PAYLOAD
  }

  /** Draining keeps one entry per source. */
  lemma {:induction false} DrainKeepsUnique(devs: seq<Device>, ifs: seq<Interface>, arrivals: seq<Arrival>)
    requires UniqueSources(devs)
    ensures UniqueSources(Drain(devs, ifs, arrivals))
  {
    if |arrivals| > 0 {
      var a := arrivals[|arrivals| - 1];
      DrainKeepsUnique(devs, ifs, arrivals[..|arrivals| - 1]);
      RecordKeepsUnique(Drain(devs, ifs, arrivals[..|arrivals| - 1]), a.sender, a.data, a.clock, a.nodeAllocOk, a.payloadAllocOk);
    }
  }

  /** Draining never removes a source from the registry. */
  lemma {:induction false} DrainKeepsSources(devs: seq<Device>, ifs: seq<Interface>, arrivals: seq<Arrival>, s: SockAddr)
    requires FindDevice(devs, s).Some?
    ensures FindDevice(Drain(devs, ifs, arrivals), s).Some?
  {
    if |arrivals| > 0 {
      var a := arrivals[|arrivals| - 1];
      var before := Drain(devs, ifs, arrivals[..|arrivals| - 1]);
      DrainKeepsSources(devs, ifs, arrivals[..|arrivals| - 1], s);
      if Classify(a.data, a.sender, ifs) == DiscoveryResponse {
        RecordKeepsSources(before, a.sender, a.data, a.clock, a.nodeAllocOk, a.payloadAllocOk, s);
      }
    }
  }

  /** Arrivals that are not responses leave the registry as it was. */
  lemma {:induction false} DrainWithoutResponses(devs: seq<Device>, ifs: seq<Interface>, arrivals: seq<Arrival>)
    requires forall k :: 0 <= k < |arrivals| ==> Classify(arrivals[k].data, arrivals[k].sender, ifs) != DiscoveryResponse
    ensures Drain(devs, ifs, arrivals) == devs
  {
    if |arrivals| > 0 {
      DrainWithoutResponses(devs, ifs, arrivals[..|arrivals| - 1]);
    }
  }

  /** Draining small responses keeps every cached payload replayable. */
  lemma {:induction false} DrainKeepsFit(devs: seq<Device>, ifs: seq<Interface>, arrivals: seq<Arrival>)
    requires PayloadsFit(devs) && ResponsesFit(ifs, arrivals)
    ensures PayloadsFit(Drain(devs, ifs, arrivals))
  {
    if |arrivals| > 0 {
      var init := arrivals[..|arrivals| - 1];
      assert ResponsesFit(ifs, init) by {
        forall k | 0 <= k < |init| ensures init[k] == arrivals[k] { }
      }
      DrainKeepsFit(devs, ifs, init);
      PayloadsFitAfterApply(Drain(devs, ifs, init), ifs, arrivals[|arrivals| - 1]);
    }
  }

  /** A response of 4069 bytes from a foreign sender passes the classifier and
      is cached whole, yet no replay of it fits the forger's buffer: the
      requirement `PayloadsFit` of `ReplyToDiscovery` is not established by
      anything the relay checks. */
  lemma OversizedResponseIsCached(sender: SockAddr, ifs: seq<Interface>, now: int)
    requires !FromOwnInterface(sender, ifs)
    ensures var data := ISCP_MAGIC + seq(12, _ => 0) + RESPONSE_SIGNATURE + seq(MAX_PAYLOAD - 20, _ => 0);
            && Classify(data, sender, ifs) == DiscoveryResponse
            && RecordResponse([], sender, data, now, true, true) == [Device(sender, data, now)]
            && !PayloadsFit([Device(sender, data, now)])
  {
    var data := ISCP_MAGIC + seq(12, _ => 0) + RESPONSE_SIGNATURE + seq(MAX_PAYLOAD - 20, _ => 0);
    assert data[..4] == ISCP_MAGIC;
    assert data[16..21] == RESPONSE_SIGNATURE;
    ResponseExactly(data, sender, ifs);
    assert |[Device(sender, data, now)][0].payload| > MAX_PAYLOAD;
  }

  /** The replies a drain makes: for each arrival, the replay pass of a query,
      or nothing. */
  ghost predicate Reactions(replies: seq<Option<seq<Option<Transmission>>>>, devs: seq<Device>,
                            ifs: seq<Interface>, arrivals: seq<Arrival>)
  {
    && |replies| == |arrivals|
    && forall k :: 0 <= k < |arrivals| ==>
         && (replies[k].Some? <==> Classify(arrivals[k].data, arrivals[k].sender, ifs) == DiscoveryQuery)
         && (replies[k].Some? ==>
               ReplayPass(replies[k].value, Drain(devs, ifs, arrivals[..k]), arrivals[k].sender, arrivals[k].sys))
  }

  /** The reactions to one more arrival extend the reactions to the ones
      before it. */
  lemma ReactionsExtend(replies: seq<Option<seq<Option<Transmission>>>>, devs: seq<Device>,
                        ifs: seq<Interface>, arrivals: seq<Arrival>, k: nat,
                        reply: Option<seq<Option<Transmission>>>)
    requires k < |arrivals| && Reactions(replies, devs, ifs, arrivals[..k])
    requires reply.Some? <==> Classify(arrivals[k].data, arrivals[k].sender, ifs) == DiscoveryQuery
    requires reply.Some? ==> ReplayPass(reply.value, Drain(devs, ifs, arrivals[..k]), arrivals[k].sender, arrivals[k].sys)
    ensures Reactions(replies + [reply], devs, ifs, arrivals[..k + 1])
  {
    var prev := arrivals[..k];
    var next := arrivals[..k + 1];
    var r := replies + [reply];
    forall j | 0 <= j < k + 1
      ensures r[j].Some? <==> Classify(next[j].data, next[j].sender, ifs) == DiscoveryQuery
      ensures r[j].Some? ==> ReplayPass(r[j].value, Drain(devs, ifs, next[..j]), next[j].sender, next[j].sys)
    {
      assert next[..j] == arrivals[..j] && next[j] == arrivals[j];
      if j < k {
        assert prev[..j] == arrivals[..j] && prev[j] == arrivals[j];
        assert r[j] == replies[j];
      }
    }
  }

  /** The `doIgnore` loop: does the sender's IP belong to an own interface? */
  method SentFromOwnInterface(ifs: seq<Interface>, sender: SockAddr) returns (doIgnore: bool)
    ensures doIgnore <==> FromOwnInterface(sender, ifs)
  {
    doIgnore := false;
    var i := 0;
    while i < |ifs|
      invariant 0 <= i <= |ifs|
      invariant forall j :: 0 <= j < i ==> ifs[j].address.ip != sender.ip
    {
      if ifs[i].address.ip == sender.ip {
        doIgnore := true;
        break;
      }
      i := i + 1;
    }
  }

  /** The body of the drain loop for one received datagram: the `doIgnore`
      decision, then a replay pass for a query or the registry update for a
      response. */
  method HandleDatagram(env: Environment, received: Arrival) returns (reply: Option<seq<Option<Transmission>>>)
    requires PayloadsFit(env.devices)
    requires Classify(received.data, received.sender, env.interfaces) == DiscoveryResponse
             ==> |received.data| <= MAX_PAYLOAD
    modifies env
    ensures env.devices == Apply(old(env.devices), env.interfaces, received)
    ensures reply.Some? <==> Classify(received.data, received.sender, env.interfaces) == DiscoveryQuery
    ensures reply.Some? ==> ReplayPass(reply.value, old(env.devices), received.sender, received.sys)
    ensures env.interfaces == old(env.interfaces)
    ensures env.debuggingEnabled == old(env.debuggingEnabled) && env.timeoutInterval == old(env.timeoutInterval)
  {
    var doIgnore := SentFromOwnInterface(env.interfaces, received.sender);
    var buffer := received.data;
    if |buffer| < 4 || buffer[..4] != ISCP_MAGIC {
      doIgnore := true;
    }
    reply := None;
    if doIgnore {
      return;
    }
    if |buffer| >= 25 && buffer[16..25] == QUERY_SIGNATURE {
      var sends := ReplyToDiscovery(received.sender, env, received.sys);
      reply := Some(sends);
    } else if |buffer| >= 21 && buffer[16..21] == RESPONSE_SIGNATURE {
      HandleDiscoveryResponse(received.sender, env, buffer, received.clock,
                              received.nodeAllocOk, received.payloadAllocOk);
    }
  }

  /** One more arrival keeps every cached payload replayable when a response
      in it is small enough. */
  lemma PayloadsFitAfterApply(devs: seq<Device>, ifs: seq<Interface>, a: Arrival)
    requires PayloadsFit(devs)
    requires Classify(a.data, a.sender, ifs) == DiscoveryResponse ==> |a.data| <= MAX_PAYLOAD
    ensures PayloadsFit(Apply(devs, ifs, a))
  {
    var r := Apply(devs, ifs, a);
    if r != devs && FindDevice(devs, a.sender).None? {
      forall i | 0 < i < |r| ensures |r[i].payload| <= MAX_PAYLOAD {
        assert r[i] == devs[i - 1];
      }
    }
  }

  /** `process_received_packet`: receives datagrams until none is waiting and
      handles each in turn; a query is answered with a replay of the registry
      as it stands at that moment, a response updates the registry. */
  method ProcessReceivedPacket(env: Environment, arrivals: seq<Arrival>)
    returns (replies: seq<Option<seq<Option<Transmission>>>>)
    requires PayloadsFit(env.devices) && ResponsesFit(env.interfaces, arrivals)
    modifies env
    ensures env.devices == Drain(old(env.devices), env.interfaces, arrivals)
    ensures Reactions(replies, old(env.devices), env.interfaces, arrivals)
    ensures env.interfaces == old(env.interfaces)
    ensures env.debuggingEnabled == old(env.debuggingEnabled) && env.timeoutInterval == old(env.timeoutInterval)
  {
    ghost var devs := env.devices;
    replies := [];
    var k := 0;
    while k < |arrivals|
      invariant 0 <= k <= |arrivals|
      invariant env.interfaces == old(env.interfaces) && env.timeoutInterval == old(env.timeoutInterval)
      invariant env.debuggingEnabled == old(env.debuggingEnabled)
      invariant env.devices == Drain(devs, env.interfaces, arrivals[..k])
      invariant PayloadsFit(env.devices)
      invariant Reactions(replies, devs, env.interfaces, arrivals[..k])
    {
      var received := arrivals[k];
      assert arrivals[..k + 1][..k] == arrivals[..k];
      assert Classify(received.data, received.sender, env.interfaces) == DiscoveryResponse
             ==> |received.data| <= MAX_PAYLOAD;
      var reply := HandleDatagram(env, received);
      PayloadsFitAfterApply(Drain(devs, env.interfaces, arrivals[..k]), env.interfaces, received);
      ReactionsExtend(replies, devs, env.interfaces, arrivals, k, reply);
      replies := replies + [reply];
      k := k + 1;
    }
    assert arrivals[..k] == arrivals;
  }

  // ---------------------------------------------------------------------------
  // send_discovery_packets

  /** What the operating system answers, for one interface, to `socket`, the
      two `setsockopt` calls, `bind` and `sendto`. */
  datatype BroadcastOutcomes = BroadcastOutcomes(socketOk: bool, optionsOk: bool, bindOk: bool, sendOk: bool)

  /** A datagram sent from a bound address to a destination. */
  datatype Broadcast = Broadcast(from: SockAddr, data: seq<byte>, to: SockAddr)

  /** The interface list after a discovery pass and the datagrams it sent. */
  datatype Pass = Pass(interfaces: seq<Interface>, sent: seq<Broadcast>)

  /** The discovery pass from interface `i` on. A failed `socket` skips to the
      next interface; a failed `setsockopt` or `bind` ends the pass; the port
      of an interface's address is set to 60128 before it is bound; a failed
      `sendto` is only logged. */
  function DiscoveryPass(ifs: seq<Interface>, outs: nat -> BroadcastOutcomes, i: nat): (p: Pass)
    ensures |p.interfaces| == |ifs|
    decreases |ifs| - i
  {
    if i >= |ifs| then Pass(ifs, [])
    else if !outs(i).socketOk then DiscoveryPass(ifs, outs, i + 1)
    else if !outs(i).optionsOk then Pass(ifs, [])
    else
      var bound := ifs[i].address.(port := PORT);
      var ifs' := ifs[i := ifs[i].(address := bound)];
      if !outs(i).bindOk then Pass(ifs', [])
      else
        var rest := DiscoveryPass(ifs', outs, i + 1);
        var here := if outs(i).sendOk then [Broadcast(bound, DISCOVERY_PAYLOAD, BROADCAST_ADDR)] else [];
        Pass(rest.interfaces, here + rest.sent)
  }

  /** `send_discovery_packets`: broadcasts the discovery payload from each
      interface in turn, bound to the interface's address and port 60128.
      `outs(i)` gives the outcomes of the calls made for interface `i`. */
  method SendDiscoveryPackets(env: Environment, outs: nat -> BroadcastOutcomes) returns (sent: seq<Broadcast>)
    modifies env
    ensures env.interfaces == DiscoveryPass(old(env.interfaces), outs, 0).interfaces
    ensures sent == DiscoveryPass(old(env.interfaces), outs, 0).sent
    ensures env.devices == old(env.devices)
    ensures env.debuggingEnabled == old(env.debuggingEnabled) && env.timeoutInterval == old(env.timeoutInterval)
  {
    sent := [];
    var i := 0;
    while i < |env.interfaces|
      invariant 0 <= i <= |env.interfaces| == |old(env.interfaces)|
      invariant DiscoveryPass(old(env.interfaces), outs, 0)
                == Pass(DiscoveryPass(env.interfaces, outs, i).interfaces, sent + DiscoveryPass(env.interfaces, outs, i).sent)
      invariant env.devices == old(env.devices)
      invariant env.debuggingEnabled == old(env.debuggingEnabled) && env.timeoutInterval == old(env.timeoutInterval)
      decreases |env.interfaces| - i
    {
      var o := outs(i);
      if !o.socketOk {
        i := i + 1;
        continue;
      }
      if !o.optionsOk {
        return;
      }
      var current := env.interfaces[i];
      env.interfaces := env.interfaces[i := current.(address := current.address.(port := PORT))];
      if !o.bindOk {
        return;
      }
      if o.sendOk {
        sent := sent + [Broadcast(env.interfaces[i].address, DISCOVERY_PAYLOAD, BROADCAST_ADDR)];
      }
      i := i + 1;
    }
  }

  /** Every datagram of a pass is the discovery payload sent to
      255.255.255.255:60128 from port 60128 of an interface's own IP, and the
      pass leaves each interface's name and IP alone, changing at most its
      port, to 60128. */
  lemma {:induction false} DiscoveryPassShape(ifs: seq<Interface>, outs: nat -> BroadcastOutcomes, i: nat)
    ensures var p := DiscoveryPass(ifs, outs, i);
            && |p.interfaces| == |ifs|
            && (forall j :: 0 <= j < |ifs| ==>
                  && p.interfaces[j].name == ifs[j].name
                  && p.interfaces[j].address.ip == ifs[j].address.ip
                  && (p.interfaces[j].address.port == ifs[j].address.port || p.interfaces[j].address.port == PORT))
            && (forall b :: b in p.sent ==>
                  && b.data == DISCOVERY_PAYLOAD && b.to == BROADCAST_ADDR && b.from.port == PORT
                  && exists j :: i <= j < |ifs| && b.from.ip == ifs[j].address.ip)
    decreases |ifs| - i
  {
    if i < |ifs| && outs(i).socketOk && outs(i).optionsOk {
      var ifs' := ifs[i := ifs[i].(address := ifs[i].address.(port := PORT))];
      if outs(i).bindOk {
        DiscoveryPassShape(ifs', outs, i + 1);
        var p := DiscoveryPass(ifs, outs, i);
        var rest := DiscoveryPass(ifs', outs, i + 1);
        forall b | b in p.sent
          ensures exists j :: i <= j < |ifs| && b.from.ip == ifs[j].address.ip
        {
          if b !in rest.sent {
            assert b.from.ip == ifs[i].address.ip;
          } else {
            var j :| i + 1 <= j < |ifs'| && b.from.ip == ifs'[j].address.ip;
            assert ifs'[j] == ifs[j];
          }
        }
      }
    } else if i < |ifs| && !outs(i).socketOk {
      DiscoveryPassShape(ifs, outs, i + 1);
    }
  }

  /** When every call succeeds, the pass sends one discovery datagram per
      interface, in list order, and binds every interface to port 60128. */
  lemma {:induction false} DiscoveryPassAllSucceed(ifs: seq<Interface>, outs: nat -> BroadcastOutcomes, i: nat)
    requires i <= |ifs|
    requires forall j :: i <= j < |ifs| ==> outs(j) == BroadcastOutcomes(true, true, true, true)
    ensures var p := DiscoveryPass(ifs, outs, i);
            && |p.sent| == |ifs| - i
            && (forall j :: i <= j < |ifs| ==>
                  p.sent[j - i] == Broadcast(SockAddr(ifs[j].address.ip, PORT), DISCOVERY_PAYLOAD, BROADCAST_ADDR))
            && (forall j :: i <= j < |ifs| ==> p.interfaces[j].address == SockAddr(ifs[j].address.ip, PORT))
            && (forall j :: 0 <= j < i ==> p.interfaces[j] == ifs[j])
    decreases |ifs| - i
  {
    if i < |ifs| {
      var ifs' := ifs[i := ifs[i].(address := ifs[i].address.(port := PORT))];
      DiscoveryPassAllSucceed(ifs', outs, i + 1);
      var p := DiscoveryPass(ifs, outs, i);
      var rest := DiscoveryPass(ifs', outs, i + 1);
      assert p.sent == [Broadcast(SockAddr(ifs[i].address.ip, PORT), DISCOVERY_PAYLOAD, BROADCAST_ADDR)] + rest.sent;
      assert p.interfaces == rest.interfaces;
      forall j | i < j < |ifs|
        ensures p.sent[j - i] == Broadcast(SockAddr(ifs[j].address.ip, PORT), DISCOVERY_PAYLOAD, BROADCAST_ADDR)
      {
        assert p.sent[j - i] == rest.sent[j - (i + 1)];
        assert ifs'[j] == ifs[j];
      }
      assert p.interfaces[i] == ifs'[i];
    }
  }

  /** A failed `setsockopt` or `bind` at interface `i` ends the pass: no
      interface after it is bound or sends. */
  lemma DiscoveryPassAbandons(ifs: seq<Interface>, outs: nat -> BroadcastOutcomes, i: nat)
    requires i < |ifs| && outs(i).socketOk && (!outs(i).optionsOk || !outs(i).bindOk)
    ensures DiscoveryPass(ifs, outs, i).sent == []
    ensures forall j :: i < j < |ifs| ==> DiscoveryPass(ifs, outs, i).interfaces[j] == ifs[j]
  {
  }
}
