/** The raw packet forger: the Internet checksum and the layout of a forged
    IPv4/UDP datagram whose source is a cached device's address. */
module RawPacket {
  import opened Types

  const TWO_32: int := 0x1_0000_0000

  /** `sizeof(struct iphdr)`, `sizeof(struct udphdr)` and their sum. */
  const IP_HEADER_LEN: nat := 20
  const UDP_HEADER_LEN: nat := 8
  const HEADERS_LEN: nat := 28
  /** Size of the stack buffer `packet` the forger fills. */
  const PACKET_CAPACITY: nat := 4096
  /** The largest payload that fits in `packet` after the two headers. */
  const MAX_PAYLOAD: nat := 4068
  const IPPROTO_UDP: byte := 17
  /** The value given to `htonl` for the identification field. */
  const IP_ID: u32 := 54321

  // ---------------------------------------------------------------------------
  // The checksum

  /** Sum of the first `n` native 16-bit words of `bs`, what the loop of
      `checksum` adds before the carries are folded. */
  function WordsSum(bs: seq<byte>, n: nat, order: ByteOrder): (s: nat)
    requires 2 * n <= |bs|
    ensures s <= n * 0xFFFF
  {
    if n == 0 then 0 else WordsSum(bs, n - 1, order) + LoadU16(bs[2 * n - 2], bs[2 * n - 1], order)
  }

  /** The accumulator once the words and the odd trailing byte (added on its
      own) are summed. It is an `unsigned int`, so the sum is taken modulo 2^32. */
  function RawSum(bs: seq<byte>, order: ByteOrder): u32
  {
    (WordsSum(bs, |bs| / 2, order) + Trailing(bs)) % TWO_32
  }

  /** The byte left over after the last whole word, or nothing. */
  function Trailing(bs: seq<byte>): byte
  {
    if |bs| % 2 == 1 then bs[|bs| - 1] else 0
  }

  /** The accumulator reduced after the words and again after the trailing byte. */
  lemma RawSumInSteps(bs: seq<byte>, order: ByteOrder)
    ensures RawSum(bs, order) == (WordsSum(bs, |bs| / 2, order) % TWO_32 + Trailing(bs)) % TWO_32
  {
    AddModTwo32(WordsSum(bs, |bs| / 2, order), Trailing(bs));
  }

  /** The two carry folds, kept to 16 bits: the one's-complement sum of `sum`.
      It agrees with `sum` modulo 0xFFFF and is zero only for a zero sum. */
  function Fold(sum: u32): (f: u16)
    ensures f % 0xFFFF == sum % 0xFFFF
    ensures f == 0 <==> sum == 0
  {
    var s1 := sum / 0x1_0000 + sum % 0x1_0000;
    var s2 := s1 + s1 / 0x1_0000;
    assert sum == 0xFFFF * (sum / 0x1_0000) + s1;
    ModAddMultiple(s1, sum / 0x1_0000);
    assert s1 >= 0x1_0000 ==> s2 % 0x1_0000 == s1 - 0xFFFF;
    ModAddMultiple(s2 % 0x1_0000, 1);
    s2 % 0x1_0000
  }

  /** The value `checksum` returns for the bytes `bs`: the complement of the
      one's-complement sum. */
  function ChecksumOf(bs: seq<byte>, order: ByteOrder): u16
  {
    0xFFFF - Fold(RawSum(bs, order))
  }

  lemma ModAddMultiple(a: int, k: int)
    ensures (a + 0xFFFF * k) % 0xFFFF == a % 0xFFFF
  {
  }

  lemma AddModTwo32(a: int, b: int)
    requires 0 <= a && 0 <= b
    ensures (a % TWO_32 + b) % TWO_32 == (a + b) % TWO_32
  {
    assert a == TWO_32 * (a / TWO_32) + a % TWO_32;
  }

  /** `checksum(b, len)`: adds the native 16-bit words of the first `len`
      bytes into a 32-bit accumulator, adds an odd trailing byte on its own,
      folds the carries twice and returns the complement. */
  method Checksum(buf: array<byte>, len: int, order: ByteOrder) returns (r: u16)
    requires len <= buf.Length
    ensures r == ChecksumOf(buf[..if len < 0 then 0 else len], order)
  {
    var sum, p := AddWords(buf, len, order);
    ghost var bs := buf[..if len < 0 then 0 else len];
    var n := len - p;
    ghost var trailing := 0;
    if n == 1 {
      trailing := buf[p];
      sum := (sum + buf[p]) % TWO_32;
    }
    var folded := sum / 0x1_0000 + sum % 0x1_0000;
    folded := folded + folded / 0x1_0000;
    r := 0xFFFF - folded % 0x1_0000;
    ChecksumInSteps(bs, p, trailing, order, sum, r);
  }

  /** The word loop of `checksum`: while more than one byte is left, adds the
      next native 16-bit word to the 32-bit accumulator. `p` is how far it
      got: the end of the last whole word. */
  method AddWords(buf: array<byte>, len: int, order: ByteOrder) returns (sum: u32, p: int)
    requires len <= buf.Length
    ensures var bs := buf[..if len < 0 then 0 else len];
            && 0 <= p && p % 2 == 0 && p <= |bs| <= p + 1 && len - p <= 1
            && sum == WordsSum(bs, p / 2, order) % TWO_32
  {
    ghost var bs := buf[..if len < 0 then 0 else len];
    sum := 0;
    var n := len;
    p := 0;
    ghost var w := 0;
    while n > 1
      invariant 0 <= p == 2 * w <= |bs| && n == len - p
      invariant sum == WordsSum(bs, w, order) % TWO_32
    {
      var word := LoadU16(buf[p], buf[p + 1], order);
      assert word == LoadU16(bs[2 * w], bs[2 * w + 1], order);
      WordsSumStep(bs, w, order);
      sum := (sum + word) % TWO_32;
      p := p + 2;
      n := n - 2;
      w := w + 1;
    }
  }

  /** One more word of the loop, added modulo 2^32. */
  lemma WordsSumStep(bs: seq<byte>, w: nat, order: ByteOrder)
    requires 2 * w + 2 <= |bs|
    ensures (WordsSum(bs, w, order) % TWO_32 + LoadU16(bs[2 * w], bs[2 * w + 1], order)) % TWO_32
            == WordsSum(bs, w + 1, order) % TWO_32
  {
    AddModTwo32(WordsSum(bs, w, order), LoadU16(bs[2 * w], bs[2 * w + 1], order));
  }

  /** The accumulator once every word and the odd byte are in. */
  lemma RawSumFromWords(bs: seq<byte>, w: nat, trailing: byte, order: ByteOrder)
    requires 2 * w <= |bs| && w == |bs| / 2
    requires trailing == if |bs| % 2 == 1 then bs[|bs| - 1] else 0
    ensures (WordsSum(bs, w, order) % TWO_32 + trailing) % TWO_32 == RawSum(bs, order)
  {
    RawSumInSteps(bs, order);
  }

  /** The tail of `checksum`: from the accumulator after the words (`p`
      bytes) and the odd byte, the two folds and the complement give the
      checksum of the bytes. */
  lemma ChecksumInSteps(bs: seq<byte>, p: nat, trailing: byte, order: ByteOrder, sum: u32, r: int)
    requires p % 2 == 0 && p <= |bs| <= p + 1
    requires trailing == if |bs| == p + 1 then bs[p] else 0
    requires sum == (WordsSum(bs, p / 2, order) % TWO_32 + trailing) % TWO_32
    requires var s1 := sum / 0x1_0000 + sum % 0x1_0000;
             r == 0xFFFF - (s1 + s1 / 0x1_0000) % 0x1_0000
    ensures r == ChecksumOf(bs, order)
  {
    assert p / 2 == |bs| / 2;
    RawSumFromWords(bs, |bs| / 2, trailing, order);
    FoldInSteps(sum);
  }

  /** The folds as `checksum` writes them, each step within 32 bits. */
  lemma FoldInSteps(sum: u32)
    ensures sum / 0x1_0000 + sum % 0x1_0000 <= 0x1_FFFE
    ensures var s1 := sum / 0x1_0000 + sum % 0x1_0000;
            (s1 + s1 / 0x1_0000) % 0x1_0000 == Fold(sum)
  {
  }

  /** `s` with `bs` copied over positions `off` to `off + |bs| - 1`, as a
      `memcpy` or a run of field stores into the buffer does. */
  function Overwrite(s: seq<byte>, off: nat, bs: seq<byte>): (r: seq<byte>)
    requires off + |bs| <= |s|
    ensures |r| == |s|
  {
    s[..off] + bs + s[off + |bs|..]
  }

  /** `bs` with the native bytes of `v` written over positions `k` and `k + 1`,
      as `iph->check = checksum(...)` does. */
  function Put16(bs: seq<byte>, k: nat, v: u16, order: ByteOrder): (r: seq<byte>)
    requires k + 2 <= |bs|
    ensures |r| == |bs|
  {
    Overwrite(bs, k, StoreU16(v, order))
  }

  /** Writing `v` into the zero word at `k` adds `v` to every word sum that
      includes that word. */
  lemma WordsSumPut(bs: seq<byte>, k: nat, v: u16, order: ByteOrder, n: nat)
    requires k % 2 == 0 && k + 2 <= |bs| && bs[k] == 0 && bs[k + 1] == 0
    requires 2 * n <= |bs|
    ensures WordsSum(Put16(bs, k, v, order), n, order)
            == WordsSum(bs, n, order) + (if k < 2 * n then v else 0)
  {
    var bs' := Put16(bs, k, v, order);
    var w := StoreU16(v, order);
    assert bs' == bs[..k] + w + bs[k + 2..];
    assert bs'[k] == w[0] && bs'[k + 1] == w[1];
    WordsSumChanged(bs, bs', k, v, order, n);
  }

  /** The word sums of two buffers that differ only in the zero word at `k`,
      which holds `v` in the second, differ by `v` once that word is summed. */
  lemma {:induction false} WordsSumChanged(bs: seq<byte>, bs': seq<byte>, k: nat, v: u16, order: ByteOrder, n: nat)
    requires k % 2 == 0 && k + 2 <= |bs| == |bs'| && bs[k] == 0 && bs[k + 1] == 0
    requires LoadU16(bs'[k], bs'[k + 1], order) == v
    requires forall i :: 0 <= i < |bs| && i != k && i != k + 1 ==> bs'[i] == bs[i]
    requires 2 * n <= |bs|
    ensures WordsSum(bs', n, order) == WordsSum(bs, n, order) + (if k < 2 * n then v else 0)
  {
    if n > 0 {
      WordsSumChanged(bs, bs', k, v, order, n - 1);
      if k == 2 * n - 2 {
        assert LoadU16(bs[k], bs[k + 1], order) == 0;
      } else {
        assert k != 2 * n - 1 by { assert k == 2 * (k / 2); }
        assert bs'[2 * n - 2] == bs[2 * n - 2] && bs'[2 * n - 1] == bs[2 * n - 1];
      }
    }
  }

  /** The verification property of the Internet checksum: once the checksum of
      a buffer whose 16-bit checksum field is zero is written into that field,
      the checksum of the buffer is zero. Buffers up to 0xFFFF bytes (every
      length an IPv4 total-length field can give) do not wrap the accumulator. */
  lemma ChecksumVerifies(bs: seq<byte>, k: nat, order: ByteOrder)
    requires k % 2 == 0 && k + 2 <= |bs| <= 0xFFFF
    requires bs[k] == 0 && bs[k + 1] == 0
    ensures ChecksumOf(Put16(bs, k, ChecksumOf(bs, order), order), order) == 0
  {
    var c := ChecksumOf(bs, order);
    RawSumPut(bs, k, c, order);
    FoldOfComplement(RawSum(bs, order));
  }

  /** Writing `v` into a zero field adds `v` to the accumulator, which does
      not wrap for buffers of at most 0xFFFF bytes. */
  lemma RawSumPut(bs: seq<byte>, k: nat, v: u16, order: ByteOrder)
    requires k % 2 == 0 && k + 2 <= |bs| <= 0xFFFF
    requires bs[k] == 0 && bs[k + 1] == 0
    ensures RawSum(bs, order) + 0xFFFF < TWO_32
    ensures RawSum(Put16(bs, k, v, order), order) == RawSum(bs, order) + v
  {
    var bs' := Put16(bs, k, v, order);
    var n := |bs| / 2;
    WordsSumPut(bs, k, v, order, n);
    assert k < 2 * n;
    assert |bs| % 2 == 1 ==> bs'[|bs| - 1] == bs[|bs| - 1];
    RawSumNoWrap(bs, order);
    RawSumNoWrap(bs', order);
  }

  /** For buffers of at most 0xFFFF bytes the accumulator does not wrap. */
  lemma RawSumNoWrap(bs: seq<byte>, order: ByteOrder)
    requires |bs| <= 0xFFFF
    ensures RawSum(bs, order) == WordsSum(bs, |bs| / 2, order) + Trailing(bs)
    ensures RawSum(bs, order) <= 0x7FFF * 0xFFFF + 0xFF
  {
    assert |bs| / 2 <= 0x7FFF;
  }

  /** Adding the complement of a sum's fold makes the fold all ones. */
  lemma FoldOfComplement(s: nat)
    requires s + 0xFFFF < TWO_32
    ensures Fold(s + (0xFFFF - Fold(s))) == 0xFFFF
  {
    var f := Fold(s);
    var t := s + (0xFFFF - f);
    var q, fq, r := s / 0xFFFF, f / 0xFFFF, s % 0xFFFF;
    assert s == 0xFFFF * q + r;
    assert f % 0xFFFF == r;
    assert f == 0xFFFF * fq + r;
    var k := q - fq + 1;
    assert t == 0xFFFF * k;
    ModAddMultiple(0, k);
    assert t % 0xFFFF == 0;
    assert t != 0;
    var g := Fold(t);
    MultipleOfAllOnes(g);
  }

  /** The only non-zero 16-bit multiple of 0xFFFF is 0xFFFF itself. */
  lemma MultipleOfAllOnes(g: u16)
    requires g % 0xFFFF == 0 && g != 0
    ensures g == 0xFFFF
  {
  }

  // ---------------------------------------------------------------------------
  // A reference definition: one's-complement addition with end-around carry

  /** One's-complement addition of two 16-bit values (section 1 of RFC 1071):
      add, and add any carry out of bit 15 back in. */
  function OnesAdd(a: u16, b: u16): u16
  {
    if a + b > 0xFFFF then a + b - 0xFFFF else a + b
  }

  /** The one's-complement sum of the first `n` native words of `bs`. */
  function OnesWords(bs: seq<byte>, n: nat, order: ByteOrder): u16
    requires 2 * n <= |bs|
  {
    if n == 0 then 0 else OnesAdd(OnesWords(bs, n - 1, order), LoadU16(bs[2 * n - 2], bs[2 * n - 1], order))
  }

  /** The one's-complement sum of `bs`, the odd trailing byte taken on its own. */
  function OnesSum(bs: seq<byte>, order: ByteOrder): u16
  {
    var w := OnesWords(bs, |bs| / 2, order);
    if |bs| % 2 == 1 then OnesAdd(w, bs[|bs| - 1]) else w
  }

  /** Two 16-bit values that agree modulo 0xFFFF and are zero together are equal. */
  lemma OnesUnique(f: u16, g: u16)
    requires f % 0xFFFF == g % 0xFFFF && (f == 0 <==> g == 0)
    ensures f == g
  {
  }

  lemma AddMod(a: int, b: int)
    ensures (a + b) % 0xFFFF == (a % 0xFFFF + b) % 0xFFFF
  {
    ModAddMultiple(a % 0xFFFF + b, a / 0xFFFF);
  }

  /** Adding a word to the accumulator is one's-complement addition on folds. */
  lemma FoldAdd(s: nat, w: u16)
    requires s + w < TWO_32
    ensures Fold(s + w) == OnesAdd(Fold(s), w)
  {
    var f := Fold(s);
    var x := OnesAdd(f, w);
    if f + w > 0xFFFF {
      ModAddMultiple(x, 1);
    }
    assert x % 0xFFFF == (f + w) % 0xFFFF;
    AddMod(s, w);
    AddMod(f, w);
    assert (f + w) % 0xFFFF == (s + w) % 0xFFFF;
    assert x == 0 <==> s + w == 0;
    OnesUnique(Fold(s + w), x);
  }

  lemma {:induction false} OnesWordsIsFold(bs: seq<byte>, n: nat, order: ByteOrder)
    requires 2 * n <= |bs| && n * 0xFFFF < TWO_32
    ensures OnesWords(bs, n, order) == Fold(WordsSum(bs, n, order))
  {
    if n > 0 {
      OnesWordsIsFold(bs, n - 1, order);
      FoldAdd(WordsSum(bs, n - 1, order), LoadU16(bs[2 * n - 2], bs[2 * n - 1], order));
    }
  }

  /** What `checksum` computes is the complement of the one's-complement sum
      of the buffer's words, for every buffer the 16-bit length field can
      describe. */
  lemma ChecksumIsOnesComplement(bs: seq<byte>, order: ByteOrder)
    requires |bs| <= 0xFFFF
    ensures ChecksumOf(bs, order) == 0xFFFF - OnesSum(bs, order)
  {
    var n := |bs| / 2;
    assert n * 0xFFFF < TWO_32 - 0x100;
    OnesWordsIsFold(bs, n, order);
    RawSumNoWrap(bs, order);
    if |bs| % 2 == 1 {
      FoldAdd(WordsSum(bs, n, order), Trailing(bs));
    }
  }

  // ---------------------------------------------------------------------------
  // The forged datagram

  /** The 20-byte IPv4 header `send_raw_udp_packet` writes, `check` in its
      checksum field: ihl 5 and version 4 in the first byte, tos 0, the total
      length and the checksum as native stores (the code applies no `htons`),
      the identification `htonl(54321)` cut to its low 16 bits, no
      fragmentation, ttl 255, protocol UDP, then the source and destination
      addresses as the sockaddr_in structures hold them. */
  function IpHeader(src: SockAddr, dst: SockAddr, payloadLen: nat, check: u16, order: ByteOrder): (h: seq<byte>)
    requires payloadLen <= MAX_PAYLOAD
    ensures |h| == IP_HEADER_LEN
  {
    var len := StoreU16(HEADERS_LEN + payloadLen, order);
    var id := StoreU16(Htonl(IP_ID, order) % 0x1_0000, order);
    var sum := StoreU16(check, order);
    var s := NetU32(src.ip);
    var d := NetU32(dst.ip);
    [0x45, 0, len[0], len[1], id[0], id[1], 0, 0, 255, IPPROTO_UDP, sum[0], sum[1],
     s[0], s[1], s[2], s[3], d[0], d[1], d[2], d[3]]
  }

  /** The 8-byte UDP header (RFC 768): the two ports as the sockaddr_in
      structures hold them, `htons(8 + payload_len)` and a zero checksum. */
  function UdpHeader(src: SockAddr, dst: SockAddr, payloadLen: nat): (h: seq<byte>)
    requires payloadLen <= MAX_PAYLOAD
    ensures |h| == UDP_HEADER_LEN
  {
    NetU16(src.port) + NetU16(dst.port) + NetU16(UDP_HEADER_LEN + payloadLen) + [0, 0]
  }

  /** The bytes `checksum` runs over: the first `tot_len` bytes of the buffer
      while the UDP header is not yet written, so that the eight bytes at
      offset 20 are whatever the buffer held there (`stale`). */
  function ChecksumImage(src: SockAddr, dst: SockAddr, payload: seq<byte>, stale: seq<byte>, order: ByteOrder): (img: seq<byte>)
    requires |payload| <= MAX_PAYLOAD && |stale| == UDP_HEADER_LEN
    ensures |img| == HEADERS_LEN + |payload|
  {
    IpHeader(src, dst, |payload|, 0, order) + stale + payload
  }

  /** The first `tot_len` bytes of `packet` once the forger has filled it. */
  function ForgedFrame(src: SockAddr, dst: SockAddr, payload: seq<byte>, stale: seq<byte>, order: ByteOrder): (f: seq<byte>)
    requires |payload| <= MAX_PAYLOAD && |stale| == UDP_HEADER_LEN
    ensures |f| == HEADERS_LEN + |payload|
  {
    var check := ChecksumOf(ChecksumImage(src, dst, payload, stale, order), order);
    IpHeader(src, dst, |payload|, check, order) + UdpHeader(src, dst, |payload|) + payload
  }

  /** The fields of an IPv4 header as a reader of the buffer finds them,
      every multi-byte field in network order. */
  datatype IpFields = IpFields(version: nat, ihl: nat, tos: byte, totalLength: u16, id: u16,
                               fragOff: u16, ttl: byte, protocol: byte, check: u16, saddr: u32, daddr: u32)

  /** The fields of a UDP header as a receiver reads them. */
  datatype UdpFields = UdpFields(sourcePort: u16, destPort: u16, length: u16, check: u16)

  function Be16(bs: seq<byte>, i: nat): u16
    requires i + 2 <= |bs|
  {
    (bs[i] as int) * 0x100 + bs[i + 1]
  }

  function Be32(bs: seq<byte>, i: nat): u32
    requires i + 4 <= |bs|
  {
    Be16(bs, i) * 0x1_0000 + Be16(bs, i + 2)
  }

  function ParseIpHeader(h: seq<byte>): IpFields
    requires |h| >= IP_HEADER_LEN
  {
    IpFields(h[0] / 0x10, h[0] % 0x10, h[1], Be16(h, 2), Be16(h, 4), Be16(h, 6), h[8], h[9],
             Be16(h, 10), Be32(h, 12), Be32(h, 16))
  }

  function ParseUdpHeader(u: seq<byte>): UdpFields
    requires |u| >= UDP_HEADER_LEN
  {
    UdpFields(Be16(u, 0), Be16(u, 2), Be16(u, 4), Be16(u, 6))
  }

  /** The 16-bit value with its two bytes exchanged. */
  function Swap16(v: u16): u16
  {
    (v % 0x100) * 0x100 + v / 0x100
  }

  /** What a network-order reader finds in a native 16-bit store of `v`. */
  function OnWire16(v: u16, order: ByteOrder): (w: u16)
    ensures order == BigEndian ==> w == v
    ensures order == LittleEndian ==> w == Swap16(v)
  {
    Be16(StoreU16(v, order), 0)
  }

  /** The forged datagram read back off the wire: version 4, header length 5,
      tos 0, no fragmentation, ttl 255, protocol UDP, the device's address as
      source and the requester's as destination; a UDP header carrying the two
      ports, the length 8 + payload length and a zero checksum; then the
      payload unchanged. The total length and the identification are native
      stores: on a big-endian host they read 28 + payload length and 54321, on
      a little-endian host the length reads byte-swapped and the
      identification reads 0. */
  lemma ForgedFrameFields(src: SockAddr, dst: SockAddr, payload: seq<byte>, stale: seq<byte>, order: ByteOrder)
    requires |payload| <= MAX_PAYLOAD && |stale| == UDP_HEADER_LEN
    ensures var f := ForgedFrame(src, dst, payload, stale, order);
            var ip := ParseIpHeader(f);
            && ip.version == 4 && ip.ihl == 5 && ip.tos == 0 && ip.fragOff == 0
            && ip.ttl == 255 && ip.protocol == IPPROTO_UDP
            && ip.saddr == src.ip && ip.daddr == dst.ip
            && ip.totalLength == OnWire16(HEADERS_LEN + |payload|, order)
            && ip.id == (if order == BigEndian then IP_ID else 0)
            && ParseUdpHeader(f[IP_HEADER_LEN..]) == UdpFields(src.port, dst.port, UDP_HEADER_LEN + |payload|, 0)
            && f[HEADERS_LEN..] == payload
  {
    var f := ForgedFrame(src, dst, payload, stale, order);
    var check := ChecksumOf(ChecksumImage(src, dst, payload, stale, order), order);
    var h := IpHeader(src, dst, |payload|, check, order);
    var u := UdpHeader(src, dst, |payload|);
    assert f == h + u + payload;
    assert ParseIpHeader(f) == ParseIpHeader(h) by {
      assert f[..IP_HEADER_LEN] == h;
      ParsePrefix(f, h);
    }
    IpHeaderFields(src, dst, |payload|, check, order);
    assert f[IP_HEADER_LEN..] == u + payload;
    UdpHeaderFields(src, dst, |payload|, payload);
  }

  /** Only the first 20 bytes decide the parsed IPv4 header. */
  lemma ParsePrefix(f: seq<byte>, h: seq<byte>)
    requires |f| >= IP_HEADER_LEN && h == f[..IP_HEADER_LEN]
    ensures ParseIpHeader(f) == ParseIpHeader(h)
  {
  }

  lemma IpHeaderFields(src: SockAddr, dst: SockAddr, payloadLen: nat, check: u16, order: ByteOrder)
    requires payloadLen <= MAX_PAYLOAD
    ensures var ip := ParseIpHeader(IpHeader(src, dst, payloadLen, check, order));
            && ip.version == 4 && ip.ihl == 5 && ip.tos == 0 && ip.fragOff == 0
            && ip.ttl == 255 && ip.protocol == IPPROTO_UDP
            && ip.saddr == src.ip && ip.daddr == dst.ip
            && ip.totalLength == OnWire16(HEADERS_LEN + payloadLen, order)
            && ip.check == OnWire16(check, order)
            && ip.id == (if order == BigEndian then IP_ID else 0)
  {
    IdField(order);
  }

  /** `htonl(54321)` stored into the 16-bit identification field keeps the
      low half of the swapped value: zero on a little-endian host. */
  lemma IdField(order: ByteOrder)
    ensures OnWire16(Htonl(IP_ID, order) % 0x1_0000, order) == (if order == BigEndian then IP_ID else 0)
  {
    if order == LittleEndian {
      assert IP_ID % 0x100 == 0x31 && (IP_ID / 0x100) % 0x100 == 0xD4;
      assert Htonl(IP_ID, order) == 0x31D4_0000;
    }
  }

  lemma UdpHeaderFields(src: SockAddr, dst: SockAddr, payloadLen: nat, rest: seq<byte>)
    requires payloadLen <= MAX_PAYLOAD
    ensures ParseUdpHeader(UdpHeader(src, dst, payloadLen) + rest)
            == UdpFields(src.port, dst.port, UDP_HEADER_LEN + payloadLen, 0)
  {
    var u := UdpHeader(src, dst, payloadLen);
    assert u[0..2] == NetU16(src.port) && u[2..4] == NetU16(dst.port);
    assert u[4..6] == NetU16(UDP_HEADER_LEN + payloadLen);
  }

  /** The checksum the forger stores verifies over the image it was computed
      on, the stale bytes at offset 20 included, not over the 20-byte header
      on its own as section 3.1 of RFC 791 defines it. */
  lemma ForgedChecksumCoversImage(src: SockAddr, dst: SockAddr, payload: seq<byte>, stale: seq<byte>, order: ByteOrder)
    requires |payload| <= MAX_PAYLOAD && |stale| == UDP_HEADER_LEN
    ensures var f := ForgedFrame(src, dst, payload, stale, order);
            ChecksumOf(f[..IP_HEADER_LEN] + stale + payload, order) == 0
  {
    var img := ChecksumImage(src, dst, payload, stale, order);
    var c := ChecksumOf(img, order);
    var f := ForgedFrame(src, dst, payload, stale, order);
    var h0 := IpHeader(src, dst, |payload|, 0, order);
    var h := IpHeader(src, dst, |payload|, c, order);
    var rest := stale + payload;
    assert img == h0 + rest;
    assert img[10] == h0[10] == 0 && img[11] == h0[11] == 0;
    ChecksumVerifies(img, 10, order);
    Put16Prefix(h0, rest, 10, c, order);
    IpHeaderWithCheck(src, dst, |payload|, c, order);
    assert f[..IP_HEADER_LEN] == h by {
      assert f == h + UdpHeader(src, dst, |payload|) + payload;
    }
    assert h + stale + payload == h + rest;
  }

  lemma Put16Prefix(a: seq<byte>, b: seq<byte>, k: nat, v: u16, order: ByteOrder)
    requires k + 2 <= |a|
    ensures Put16(a + b, k, v, order) == Put16(a, k, v, order) + b
  {
    assert (a + b)[..k] == a[..k];
    assert (a + b)[k + 2..] == a[k + 2..] + b;
  }

  // ---------------------------------------------------------------------------
  // send_raw_udp_packet

  /** What the operating system answers to the three calls of
      `send_raw_udp_packet`: `socket(AF_INET, SOCK_RAW, IPPROTO_UDP)`,
      `setsockopt(IP_HDRINCL)` and `sendto`. */
  datatype RawOutcomes = RawOutcomes(socketOk: bool, headerIncludeOk: bool, sendOk: bool)

  /** A buffer handed to `sendto` and its destination address. */
  datatype Transmission = Transmission(frame: seq<byte>, to: SockAddr)

  /** The buffer `send_raw_udp_packet` hands to `sendto`, if it gets that
      far: the forged frame, whose UDP header bytes read `stale` when the
      checksum was computed, sent to `dst`. Neither a failed `socket` nor a
      failed `setsockopt` lets anything out. */
  function RawSend(src: SockAddr, dst: SockAddr, payload: seq<byte>, stale: seq<byte>,
                   order: ByteOrder, sys: RawOutcomes): (t: Option<Transmission>)
    requires |payload| <= MAX_PAYLOAD && |stale| == UDP_HEADER_LEN
    ensures t.Some? <==> sys.socketOk && sys.headerIncludeOk
    ensures t.Some? ==> t.value.to == dst && |t.value.frame| == HEADERS_LEN + |payload|
                        && t.value.frame[HEADERS_LEN..] == payload
  {
    if sys.socketOk && sys.headerIncludeOk then
      ForgedFrameFields(src, dst, payload, stale, order);
      Some(Transmission(ForgedFrame(src, dst, payload, stale, order), dst))
    else
      None
  }

  /** `send_raw_udp_packet`: forges an IPv4/UDP datagram from `src` to `dst`
      carrying `payload` in the 4096-byte stack buffer `packet`, whose initial
      contents are unspecified, and hands it to a raw socket. Returns
      `packet_len` when `sendto` succeeds (a short send is not modelled), or -1
      when a call fails; `sendto` tells which
      buffer, if any, was handed over, and `stale` what the buffer held where
      the UDP header goes. */
  method SendRawUdpPacket(src: SockAddr, dst: SockAddr, payload: seq<byte>, order: ByteOrder, sys: RawOutcomes)
    returns (sent: int, sendto: Option<Transmission>, ghost stale: seq<byte>)
    requires |payload| <= MAX_PAYLOAD
    ensures |stale| == UDP_HEADER_LEN
    ensures sendto == RawSend(src, dst, payload, stale, order, sys)
    ensures sent == (if sendto.Some? && sys.sendOk then HEADERS_LEN + |payload| else -1)
  {
    var packet := new byte[PACKET_CAPACITY];
    stale := packet[IP_HEADER_LEN..HEADERS_LEN];
    if !sys.socketOk {
      return -1, None, stale;
    }
    var packetLen := FillPacket(src, dst, payload, packet, order);
    if !sys.headerIncludeOk {
      return -1, None, stale;
    }
    sendto := Some(Transmission(packet[..packetLen], dst));
    sent := if sys.sendOk then packetLen else -1;
  }

  /** The part of `send_raw_udp_packet` between `socket` and `setsockopt`:
      fills `packet` and returns `packet_len`, read back from `iph->tot_len`.
      The eight bytes of the UDP header are written only after the checksum
      has been computed over them, so the checksum covers whatever `packet`
      held there. */
  method FillPacket(src: SockAddr, dst: SockAddr, payload: seq<byte>, packet: array<byte>, order: ByteOrder)
    returns (packetLen: int)
    requires packet.Length == PACKET_CAPACITY
    requires |payload| <= MAX_PAYLOAD
    modifies packet
    ensures packetLen == HEADERS_LEN + |payload|
    ensures packet[..packetLen] == ForgedFrame(src, dst, payload, old(packet[IP_HEADER_LEN..HEADERS_LEN]), order)
    ensures packet[packetLen..] == old(packet[packetLen..])
  {
    ghost var stale := packet[IP_HEADER_LEN..HEADERS_LEN];
    var totLen := FillImage(src, dst, payload, packet, order);
    ghost var image := packet[..];
    var check := Checksum(packet, totLen, order);
    Copy(packet, 10, StoreU16(check, order));
    // the assignments to the fields of `udph`
    Copy(packet, IP_HEADER_LEN, UdpHeader(src, dst, |payload|));
    FrameLayout(image, src, dst, payload, stale, order);
    ghost var frame := packet[..];
    assert packet[2] == frame[2] == image[2] && packet[3] == frame[3] == image[3];
    packetLen := LoadU16(packet[2], packet[3], order);
  }

  /** `memcpy` of the payload and the assignments to the fields of `iph`,
      the checksum field set to 0; returns `iph->tot_len` read back. */
  method FillImage(src: SockAddr, dst: SockAddr, payload: seq<byte>, packet: array<byte>, order: ByteOrder)
    returns (totLen: u16)
    requires packet.Length == PACKET_CAPACITY
    requires |payload| <= MAX_PAYLOAD
    modifies packet
    ensures totLen == HEADERS_LEN + |payload| == LoadU16(packet[2], packet[3], order)
    ensures packet[..totLen] == ChecksumImage(src, dst, payload, old(packet[IP_HEADER_LEN..HEADERS_LEN]), order)
    ensures packet[totLen..] == old(packet[totLen..])
  {
    ghost var before := packet[..];
    Copy(packet, HEADERS_LEN, payload);
    var h0 := IpHeader(src, dst, |payload|, 0, order);
    Copy(packet, 0, h0);
    ImageLayout(before, h0, payload);
    ghost var image := packet[..];
    TotLenField(src, dst, |payload|, 0, order);
    assert packet[2] == image[2] == h0[2] && packet[3] == image[3] == h0[3];
    totLen := LoadU16(packet[2], packet[3], order);
  }

  /** Copies `bs` into `packet` from offset `off` on (`memcpy`, or the stores
      into one header field). */
  method Copy(packet: array<byte>, off: nat, bs: seq<byte>)
    requires off + |bs| <= packet.Length
    modifies packet
    ensures packet[..] == Overwrite(old(packet[..]), off, bs)
  {
    forall i | 0 <= i < |bs| {
      packet[off + i] := bs[i];
    }
  }

  /** The buffer `checksum` reads: header, stale bytes, payload. */
  lemma ImageLayout(s: seq<byte>, h: seq<byte>, payload: seq<byte>)
    requires |s| == PACKET_CAPACITY && |h| == IP_HEADER_LEN && |payload| <= MAX_PAYLOAD
    ensures var t := Overwrite(Overwrite(s, HEADERS_LEN, payload), 0, h);
            && t[..HEADERS_LEN + |payload|] == h + s[IP_HEADER_LEN..HEADERS_LEN] + payload
            && t[HEADERS_LEN + |payload|..] == s[HEADERS_LEN + |payload|..]
  {
    var t0 := Overwrite(s, HEADERS_LEN, payload);
    var t := Overwrite(t0, 0, h);
    OverwriteSlices(s, HEADERS_LEN, payload);
    OverwriteSlices(t0, 0, h);
    assert t[HEADERS_LEN + |payload|..] == t0[HEADERS_LEN + |payload|..] by {
      assert t[HEADERS_LEN + |payload|..] == t[IP_HEADER_LEN..][HEADERS_LEN + |payload| - IP_HEADER_LEN..];
      assert t0[HEADERS_LEN + |payload|..] == t0[IP_HEADER_LEN..][HEADERS_LEN + |payload| - IP_HEADER_LEN..];
    }
    assert t[..HEADERS_LEN + |payload|] == t[..IP_HEADER_LEN] + t[IP_HEADER_LEN..HEADERS_LEN] + t[HEADERS_LEN..HEADERS_LEN + |payload|];
  }
  /** `iph->tot_len` reads back the length it was given. */
  lemma TotLenField(src: SockAddr, dst: SockAddr, payloadLen: nat, check: u16, order: ByteOrder)
    requires payloadLen <= MAX_PAYLOAD
    ensures var h := IpHeader(src, dst, payloadLen, check, order);
            LoadU16(h[2], h[3], order) == HEADERS_LEN + payloadLen
  {
  }

  /** The header with its checksum field filled in. */
  lemma IpHeaderWithCheck(src: SockAddr, dst: SockAddr, payloadLen: nat, check: u16, order: ByteOrder)
    requires payloadLen <= MAX_PAYLOAD
    ensures Put16(IpHeader(src, dst, payloadLen, 0, order), 10, check, order)
            == IpHeader(src, dst, payloadLen, check, order)
  {
  }

  /** The buffer once the forger is done: the image with the checksum stored
      into it and the UDP header written over the stale bytes. */
  lemma FrameLayout(image: seq<byte>, src: SockAddr, dst: SockAddr, payload: seq<byte>, stale: seq<byte>, order: ByteOrder)
    requires |image| == PACKET_CAPACITY && |payload| <= MAX_PAYLOAD && |stale| == UDP_HEADER_LEN
    requires image[..HEADERS_LEN + |payload|] == ChecksumImage(src, dst, payload, stale, order)
    ensures var check := ChecksumOf(ChecksumImage(src, dst, payload, stale, order), order);
            var t := Overwrite(Overwrite(image, 10, StoreU16(check, order)), IP_HEADER_LEN, UdpHeader(src, dst, |payload|));
            && t[..HEADERS_LEN + |payload|] == ForgedFrame(src, dst, payload, stale, order)
            && t[HEADERS_LEN + |payload|..] == image[HEADERS_LEN + |payload|..]
  {
    var n := |payload|;
    var check := ChecksumOf(ChecksumImage(src, dst, payload, stale, order), order);
    var h0 := IpHeader(src, dst, n, 0, order);
    var u := UdpHeader(src, dst, n);
    var t1 := Overwrite(image, 10, StoreU16(check, order));
    var t := Overwrite(t1, IP_HEADER_LEN, u);
    OverwriteSlices(image, 10, StoreU16(check, order));
    OverwriteSlices(t1, IP_HEADER_LEN, u);
    assert image[..IP_HEADER_LEN] == h0 && image[HEADERS_LEN..HEADERS_LEN + n] == payload by {
      assert image[..IP_HEADER_LEN] == image[..HEADERS_LEN + n][..IP_HEADER_LEN];
      assert image[HEADERS_LEN..HEADERS_LEN + n] == image[..HEADERS_LEN + n][HEADERS_LEN..];
    }
    IpHeaderWithCheck(src, dst, n, check, order);
    assert t1[..IP_HEADER_LEN] == IpHeader(src, dst, n, check, order) by {
      assert t1[..IP_HEADER_LEN] == image[..10] + StoreU16(check, order) + image[12..IP_HEADER_LEN];
      assert image[..10] == h0[..10] && image[12..IP_HEADER_LEN] == h0[12..];
    }
    assert t[HEADERS_LEN..] == image[HEADERS_LEN..] by {
      assert t[HEADERS_LEN..] == t1[HEADERS_LEN..];
      assert t1[HEADERS_LEN..] == t1[12..][HEADERS_LEN - 12..];
      assert image[HEADERS_LEN..] == image[12..][HEADERS_LEN - 12..];
    }
    assert t[HEADERS_LEN..HEADERS_LEN + n] == payload by {
      assert t[HEADERS_LEN..HEADERS_LEN + n] == t[HEADERS_LEN..][..n];
      assert image[HEADERS_LEN..HEADERS_LEN + n] == image[HEADERS_LEN..][..n];
    }
    assert t[HEADERS_LEN + n..] == image[HEADERS_LEN + n..] by {
      assert t[HEADERS_LEN + n..] == t[HEADERS_LEN..][n..];
      assert image[HEADERS_LEN + n..] == image[HEADERS_LEN..][n..];
    }
    assert t[..IP_HEADER_LEN] == t1[..IP_HEADER_LEN];
    assert t[..HEADERS_LEN + n] == t[..IP_HEADER_LEN] + t[IP_HEADER_LEN..HEADERS_LEN] + t[HEADERS_LEN..HEADERS_LEN + n];
  }

  /** What a copy leaves where. */
  lemma OverwriteSlices(s: seq<byte>, off: nat, bs: seq<byte>)
    requires off + |bs| <= |s|
    ensures var r := Overwrite(s, off, bs);
            && r[..off] == s[..off] && r[off..off + |bs|] == bs && r[off + |bs|..] == s[off + |bs|..]
  {
  }
}
