/** What lies where in an Ethernet frame that carries an IPv4/UDP datagram (RFC 894, RFC 791 and
    RFC 768), stated on its bytes alone, apart from the programs that read it. */
module Wire {
  import opened Bytes
  import opened Layout

  /** The value of a byte string in network byte order. */
  function BigEndian(w: bytes): nat {
    if w == [] then 0 else BigEndian(w[..|w| - 1]) * 0x100 + w[|w| - 1]
  }

  /** The value of a byte string with its least significant byte first. */
  function LittleEndian(w: bytes): nat {
    if w == [] then 0 else w[0] + 0x100 * LittleEndian(w[1..])
  }

  /** The field of `n` bytes at `at`. */
  function Field(f: bytes, at: nat, n: nat): nat
    requires at + n <= |f|
  {
    BigEndian(f[at..at + n])
  }

  lemma Field2(f: bytes, at: nat)
    requires at + 2 <= |f|
    ensures Field(f, at, 2) == Get16(f, at)
  {
    var w := f[at..at + 2];
    assert w[..1][..0] == [];
    assert BigEndian(w[..1]) == f[at];
  }

  lemma Field4(f: bytes, at: nat)
    requires at + 4 <= |f|
    ensures Field(f, at, 4) == Get32(f, at)
  {
    Field2(f, at);
    assert f[at..at + 3][..2] == f[at..at + 2];
    assert BigEndian(f[at..at + 3]) == Get16(f, at) * 0x100 + f[at + 2];
    assert f[at..at + 4][..3] == f[at..at + 3];
  }

  // ----- Headers ------------------------------------------------------------------------------

  /** An Ethernet frame of type IPv4. */
  predicate CarriesIp(f: bytes) {
    |f| >= 14 && Field(f, 12, 2) == 0x0800
  }

  /** The length of the IP header with its options. */
  function IpHeaderLen(f: bytes): nat
    requires |f| >= 15
  {
    4 * (f[14] % 16)
  }

  /** A whole IP header of at least 20 bytes. */
  predicate WholeIpHeader(f: bytes) {
    CarriesIp(f) && |f| >= 34 && IpHeaderLen(f) >= 20 && |f| >= 14 + IpHeaderLen(f)
  }

  /** The flag "more fragments" is set or the fragment offset is not zero. */
  predicate IsFragment(f: bytes)
    requires |f| >= 34
  {
    f[20] / 0x20 % 2 == 1 || f[20] % 0x20 != 0 || f[21] != 0
  }

  /** A whole UDP header behind the IP header. */
  predicate WholeUdpHeader(f: bytes) {
    WholeIpHeader(f) && f[23] == 17 && |f| >= 14 + IpHeaderLen(f) + 8
  }

  /** Where the UDP header starts. */
  function UdpAt(f: bytes): nat
    requires |f| >= 15
  {
    14 + IpHeaderLen(f)
  }

  function UdpPort(f: bytes): nat
    requires WholeUdpHeader(f)
  {
    Field(f, UdpAt(f) + 2, 2)
  }

  function UdpLength(f: bytes): nat
    requires WholeUdpHeader(f)
  {
    Field(f, UdpAt(f) + 4, 2)
  }

  /** The whole UDP payload lies in the frame. */
  predicate WholePayload(f: bytes)
    requires WholeUdpHeader(f)
  {
    8 <= UdpLength(f) <= |f| - UdpAt(f)
  }

  // ----- The same as the programs read it -----------------------------------------------------

  lemma EthernetRead(f: bytes)
    requires |f| >= 14
    ensures CarriesIp(f) <==> EthProto(f) == ETH_P_IP
  {
    Field2(f, 12);
  }

  lemma IpRead(f: bytes)
    requires |f| >= 34
    ensures IsFragment(f) <==> Fragmented(f)
    ensures IpHeaderLen(f) == 4 * Ihl(f) && UdpAt(f) == UdpOff(f)
    ensures Protocol(f) == f[23] && IPPROTO_UDP == 17
  {
    FragmentBits(f[20], f[21]);
  }

  lemma FragmentBits(hi: byte, lo: byte)
    ensures (hi / 0x20 % 2 == 1 || hi % 0x20 != 0 || lo != 0) <==> (hi as int * 0x100 + lo) % 0x4000 != 0
  {
  }

  lemma UdpRead(f: bytes)
    requires WholeUdpHeader(f)
    ensures HeadersFit(f) && UdpPort(f) == UdpDest(f) && UdpLength(f) == UdpLen(f)
    ensures PayloadOff(f) == UdpAt(f) + 8
  {
    IpRead(f);
    Field2(f, UdpAt(f) + 2);
    Field2(f, UdpAt(f) + 4);
  }

  // ----- Configurations -----------------------------------------------------------------------

  /** AES in CBC mode, to encrypt or to decrypt. */
  predicate CbcAction(cfg: CryptoConfig) {
    cfg.algo == 1 && (cfg.action == 1 || cfg.action == 2)
  }
}
