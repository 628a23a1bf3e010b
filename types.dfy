/** Shared data of the eISCP discovery relay: the wire constants, socket
    addresses, the cached device records and the process environment. */
module Types {

  /** An octet (`unsigned char`). */
  type byte = b: int | 0 <= b < 0x100
  /** An `unsigned short`. */
  type u16 = x: int | 0 <= x < 0x1_0000
  /** An `unsigned int`. */
  type u32 = x: int | 0 <= x < 0x1_0000_0000

  datatype Option<T> = None | Some(value: T)

  /** Process exit status: EXIT_SUCCESS or EXIT_FAILURE. */
  datatype ExitStatus = Success | Failure

  /** The eISCP discovery port, used as source and destination. */
  const PORT: u16 := 60128
  /** Capacity of the receive buffer: the largest UDP payload over IPv4. */
  const BUFFER_SIZE: nat := 65507

  /** An IPv4 socket address (`struct sockaddr_in`). `ip` is the value of the
      dotted quad a.b.c.d, that is a * 2^24 + b * 2^16 + c * 2^8 + d, and `port`
      the port number. The structure holds both in network byte order, so in
      memory each is stored most significant byte first. */
  datatype SockAddr = SockAddr(ip: u32, port: u16)

  /** The limited broadcast address 255.255.255.255 on the discovery port. */
  const BROADCAST_ADDR: SockAddr := SockAddr(0xFFFF_FFFF, PORT)

  /** A node of the device list: the address a discovery response came from,
      the bytes of that response and the time it was last seen. The C node
      also keeps `payloadSize`, which is `|payload|` here. */
  datatype Device = Device(source: SockAddr, payload: seq<byte>, timestamp: int)

  /** A node of the interface list: its name and its bound address. */
  datatype Interface = Interface(name: string, address: SockAddr)

  /** The address of an interface node before it is resolved: the C node is
      allocated with that field uninitialised, and resolution overwrites it. */
  const UNRESOLVED: SockAddr := SockAddr(0, 0)

  /** Byte order of the host: how a native 16-bit load or store lays out bytes. */
  datatype ByteOrder = BigEndian | LittleEndian

  /** The byte order the model fixes for the relay's own event loop; the
      code names none, and big-endian hosts are covered only by the lemmas
      that take a `ByteOrder`. */
  const HOST_ORDER: ByteOrder := LittleEndian

  /** The two bytes of a 16-bit value in network order (`htons`). */
  function NetU16(v: u16): (bs: seq<byte>)
    ensures |bs| == 2 && (bs[0] as int) * 0x100 + bs[1] == v
  {
    [v / 0x100, v % 0x100]
  }

  /** The four bytes of a 32-bit value in network order. */
  function NetU32(v: u32): (bs: seq<byte>)
    ensures |bs| == 4
    ensures (((bs[0] as int) * 0x100 + bs[1]) * 0x100 + bs[2]) * 0x100 + bs[3] == v
  {
    var hi, lo := v / 0x1_0000, v % 0x1_0000;
    assert v == hi * 0x1_0000 + lo && hi < 0x1_0000;
    NetU16(hi) + NetU16(lo)
  }

  /** The 16-bit value a native load reads from two consecutive bytes. */
  function LoadU16(b0: byte, b1: byte, order: ByteOrder): u16
  {
    match order
    case BigEndian => b0 * 0x100 + b1
    case LittleEndian => b1 * 0x100 + b0
  }

  /** The two bytes a native 16-bit store writes: the inverse of `LoadU16`. */
  function StoreU16(v: u16, order: ByteOrder): (bs: seq<byte>)
    ensures |bs| == 2 && LoadU16(bs[0], bs[1], order) == v
  {
    match order
    case BigEndian => [v / 0x100, v % 0x100]
    case LittleEndian => [v % 0x100, v / 0x100]
  }

  /** `htonl`: the value whose native bytes are the network-order bytes of `v`. */
  function Htonl(v: u32, order: ByteOrder): (r: u32)
    ensures order == BigEndian ==> r == v
    ensures order == LittleEndian ==>
              [r % 0x100, (r / 0x100) % 0x100, (r / 0x1_0000) % 0x100, r / 0x100_0000] == NetU32(v)
  {
    match order
    case BigEndian => v
    case LittleEndian =>
      var bs := NetU32(v);
      ByteDigits(bs[3], bs[2], bs[1], bs[0]);
      (((bs[3] as int) * 0x100 + bs[2]) * 0x100 + bs[1]) * 0x100 + bs[0]
  }

  /** The four base-256 digits of a 32-bit number, most significant first,
      read back from the number. */
  lemma ByteDigits(a: byte, b: byte, c: byte, d: byte)
    ensures var x := (((a as int) * 0x100 + b) * 0x100 + c) * 0x100 + d;
            && 0 <= x < 0x1_0000_0000
            && x % 0x100 == d && (x / 0x100) % 0x100 == c
            && (x / 0x1_0000) % 0x100 == b && x / 0x100_0000 == a
  {
    var x := (((a as int) * 0x100 + b) * 0x100 + c) * 0x100 + d;
    var y := ((a as int) * 0x100 + b) * 0x100 + c;
    assert x / 0x100 == y && x % 0x100 == d;
    assert y / 0x100 == (a as int) * 0x100 + b && y % 0x100 == c;
    assert x / 0x1_0000 == y / 0x100;
    assert ((a as int) * 0x100 + b) / 0x100 == a && ((a as int) * 0x100 + b) % 0x100 == b;
    assert x / 0x100_0000 == (x / 0x1_0000) / 0x100;
  }

  /** No two devices in the list share a source address (IP and port). */
  ghost predicate UniqueSources(devs: seq<Device>)
  {
    forall i, j :: 0 <= i < j < |devs| ==> devs[i].source != devs[j].source
  }

  /** The process-wide state (`Environment` in types.h): the device list head
      first, the interface list head first, the debug flag and the select
      timeout in seconds. Every operation on it runs inside the one event-loop
      thread. */
  class Environment {
    var devices: seq<Device>
    var interfaces: seq<Interface>
    var debuggingEnabled: bool
    var timeoutInterval: int

    /** The registry invariant: one entry per (IP, port). */
    ghost predicate Valid()
      reads this
    {
      UniqueSources(devices)
    }

    /** `Environment env;` in `main`: storage whose fields the command-line
        handler sets before anything reads them. */
    constructor ()
      ensures Valid() && devices == [] && interfaces == []
    {
      devices := [];
      interfaces := [];
      debuggingEnabled := false;
      timeoutInterval := 0;
    }
  }
}
