/** Constants and byte layout shared by the kernel programs and the user-space tools. */
module Layout {
  import opened Bytes

  const ETH_BYTES := 14
  const IP_BYTES := 20
  const UDP_BYTES := 8
  const ETH_P_IP := 0x0800
  const IPPROTO_UDP := 17

  const AES128_KEY_BYTES := 16
  const CHACHA20_KEY_BYTES := 32
  const MAX_KEY_BYTES := 32
  const IV_BYTES := 16
  const BLOCK_BYTES := 16
  const IV_OFFSET := 8
  const HEADER_BYTES := 24
  const MAGIC: u32 := 0x45424146
  const VERSION: byte := 1
  const DEFAULT_UDP_PORT: u16 := 7777
  const ACTION_ENCRYPT := 1
  const ACTION_DECRYPT := 2
  const ALGO_CBC_AES := 1
  const ALGO_CHACHA20 := 2
  const EVENT_SAMPLE_BYTES := 32
  const F_TRANSPARENT := 1
  const MAX_TRANSPARENT_PAYLOAD := 1408

  /** The fixed-size key field of the configuration. */
  type KeyField = k: bytes | |k| == MAX_KEY_BYTES witness Repeat(0, MAX_KEY_BYTES)

  /** `struct ebaf_crypto_config`, the one element of the `crypto_config` map. */
  datatype CryptoConfig = CryptoConfig(
    key: KeyField, keyLen: u32, action: u32, algo: u32, flags: u32, udpPort: u16)

  /** `struct ebaf_crypto_header` as it lies in a packet. */
  function Header(action: byte, bodyLen: u16, iv: bytes): (h: bytes)
    requires |iv| == IV_BYTES
    ensures |h| == HEADER_BYTES
    ensures Get32(h, 0) == MAGIC && h[4] == VERSION && h[5] == action
    ensures Get16(h, 6) == bodyLen && h[IV_OFFSET..] == iv
  {
    Put32(MAGIC) + [VERSION, action] + Put16(bodyLen) + iv
  }

  // Fields of a frame: Ethernet, IPv4, UDP.

  function EthProto(f: bytes): u16
    requires |f| >= ETH_BYTES
  {
    Get16(f, 12)
  }

  function Ihl(f: bytes): nat
    requires |f| > ETH_BYTES
  {
    f[ETH_BYTES] % 16
  }

  /** MF flag or a non-zero fragment offset: the low 14 bits of the field. */
  predicate Fragmented(f: bytes)
    requires |f| >= ETH_BYTES + IP_BYTES
  {
    Get16(f, 20) % 0x4000 != 0
  }

  function Protocol(f: bytes): byte
    requires |f| >= ETH_BYTES + IP_BYTES
  {
    f[23]
  }

  function UdpOff(f: bytes): nat
    requires |f| > ETH_BYTES
  {
    ETH_BYTES + 4 * Ihl(f)
  }

  function PayloadOff(f: bytes): nat
    requires |f| > ETH_BYTES
  {
    UdpOff(f) + UDP_BYTES
  }

  /** The bound checks on the headers, as every hook makes them on entry and after resizing. */
  predicate HeadersFit(f: bytes) {
    |f| >= ETH_BYTES + IP_BYTES && |f| >= PayloadOff(f)
  }

  function UdpDest(f: bytes): u16
    requires HeadersFit(f)
  {
    Get16(f, UdpOff(f) + 2)
  }

  function UdpLen(f: bytes): u16
    requires HeadersFit(f)
  {
    Get16(f, UdpOff(f) + 4)
  }
}
