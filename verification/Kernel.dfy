/** What the hooks see of the kernel: linear packet buffers, dynptr windows, the crypto kfuncs and
    the event ring. Every helper may fail; whether it does is decided by its oracle argument. */
module Kernel {
  import opened Bytes
  import opened Layout
  import opened Checksum

  // ----- Ciphers ------------------------------------------------------------------------------

  datatype Direction = Encrypt | Decrypt

  /** A keyed cipher: what a `bpf_crypto_ctx` computes for one key. */
  datatype RawCipher = RawCipher(algo: u32, enc: (bytes, bytes) -> bytes, dec: (bytes, bytes) -> bytes) {
    /** CBC works on whole blocks; the stream cipher on any length. */
    predicate Fits(n: nat) {
      algo == ALGO_CHACHA20 || n % BLOCK_BYTES == 0
    }

    function Run(d: Direction, iv: bytes, b: bytes): bytes {
      if d == Encrypt then enc(iv, b) else dec(iv, b)
    }
  }

  /** For a fixed key and IV the two directions keep the length and undo each other
      (section 6.2 of NIST SP 800-38A). */
  ghost predicate IsCipher(c: RawCipher) {
    && (forall d: Direction, iv: bytes, b: bytes {:trigger c.Run(d, iv, b)} ::
          |iv| == IV_BYTES && c.Fits(|b|) ==> |c.Run(d, iv, b)| == |b|)
    && (forall iv: bytes, b: bytes {:trigger c.Run(Decrypt, iv, c.Run(Encrypt, iv, b))} ::
          |iv| == IV_BYTES && c.Fits(|b|) ==> c.Run(Decrypt, iv, c.Run(Encrypt, iv, b)) == b)
    && (forall iv: bytes, b: bytes {:trigger c.Run(Encrypt, iv, c.Run(Decrypt, iv, b))} ::
          |iv| == IV_BYTES && c.Fits(|b|) ==> c.Run(Encrypt, iv, c.Run(Decrypt, iv, b)) == b)
  }

  type Cipher = c: RawCipher | IsCipher(c)
    witness RawCipher(ALGO_CBC_AES, (iv, b) => b, (iv, b) => b)

  /** The element of `crypto_ctx_map`: the lookup fails, or the slot is empty, or it holds a context. */
  datatype Slot = NoSlot | EmptySlot | Held(cipher: Cipher)

  // ----- Oracles ------------------------------------------------------------------------------

  /** Outcome of a crypto kfunc: whether it succeeds, what it leaves in the IV window, and what a
      failed call leaves in the body. */
  datatype KfuncOracle = KfuncOracle(ok: bool, iv: nat -> byte, junk: nat -> byte)

  datatype DynptrOracle = DynptrOracle(
    from: bool, cloneBody: bool, adjustBody: bool, cloneIv: bool, adjustIv: bool)

  /** Outcome of reserving an event, the number of sample bytes that load, and the contents of the
      reserved memory. */
  datatype EventOracle = EventOracle(reserve: bool, loads: nat, memory: nat -> byte)

  // ----- Dynptrs ------------------------------------------------------------------------------

  datatype Dynptr = Dynptr(off: nat, len: nat) {
    /** `bpf_dynptr_adjust`: narrows to [start..end) or fails. */
    function Adjust(start: nat, end: nat, ok: bool): (r: Option<Dynptr>)
      ensures r.Some? <==> ok && start <= end <= len
      ensures r.Some? ==> r.value == Dynptr(off + start, end - start)
    {
      if ok && start <= end <= len then Some(Dynptr(off + start, end - start)) else None
    }
  }

  // ----- Packet transformations ---------------------------------------------------------------

  /** The kfunc succeeds when the oracle lets it and the body has a length the cipher takes. */
  predicate KfuncSucceeds(c: Cipher, n: nat, o: KfuncOracle) {
    o.ok && c.Fits(n)
  }

  /** A frame after a kfunc ran in place on body [off..off+n) with the IV at `ivOff`. */
  function KfuncFrame(f: bytes, c: Cipher, d: Direction, off: nat, n: nat, ivOff: nat, o: KfuncOracle): (r: bytes)
    requires off + n <= |f| && ivOff + IV_BYTES <= |f|
    ensures |r| == |f|
  {
    var body := if KfuncSucceeds(c, n, o) then c.Run(d, At(f, ivOff, IV_BYTES), At(f, off, n))
                else seq(n, i requires i >= 0 => o.junk(i));
    Splice(Splice(f, off, body), ivOff, seq(IV_BYTES, i requires i >= 0 => o.iv(i)))
  }

  /** A frame cut or grown to `n` bytes; new bytes are whatever `fill` gives. */
  function Resized(f: bytes, n: nat, fill: nat -> byte): (r: bytes)
    ensures |r| == n
    ensures forall i :: 0 <= i < n ==> r[i] == if i < |f| then f[i] else fill(i)
  {
    if n <= |f| then f[..n] else f + seq(n - |f|, i requires i >= 0 => fill(|f| + i))
  }

  // ----- Packets ------------------------------------------------------------------------------

  /** A linear packet buffer: `data_end` is `data` plus its length. */
  class Packet {
    var data: array<byte>

    constructor (frame: bytes)
      ensures fresh(data) && data[..] == frame
    {
      data := new byte[|frame|](i requires 0 <= i < |frame| => frame[i]);
    }

    /** `bpf_skb_load_bytes`. */
    method LoadBytes(off: nat, n: nat, ok: bool) returns (rc: int, b: bytes)
      ensures rc == 0 <==> ok && off + n <= data.Length
      ensures rc == 0 || rc == -1
      ensures rc == 0 ==> b == data[off..off + n]
    {
      if !ok || off + n > data.Length {
        return -1, [];
      }
      return 0, data[off..off + n];
    }

    /** `bpf_skb_load_bytes` into a 16-bit variable, read in network byte order. */
    method LoadU16(off: nat, ok: bool) returns (rc: int, v: u16)
      ensures rc == 0 <==> ok && off + 2 <= data.Length
      ensures rc == 0 || rc == -1
      ensures rc == 0 ==> v == Get16(data[..], off)
    {
      if !ok || off + 2 > data.Length {
        return -1, 0;
      }
      return 0, data[off] as int * 0x100 + data[off + 1];
    }

    /** `bpf_skb_store_bytes`, also a store through a packet pointer. */
    method StoreBytes(off: nat, b: bytes, ok: bool) returns (rc: int)
      modifies data
      ensures rc == 0 <==> ok && off + |b| <= data.Length
      ensures rc == 0 || rc == -1
      ensures data[..] == if rc == 0 then Splice(old(data[..]), off, b) else old(data[..])
    {
      if !ok || off + |b| > data.Length {
        return -1;
      }
      forall i | 0 <= i < |b| {
        data[off + i] := b[i];
      }
      rc := 0;
    }

    /** `bpf_skb_change_tail`: on success the packet has a new buffer of `n` bytes. */
    method ChangeTail(n: nat, ok: bool, fill: nat -> byte) returns (rc: int)
      modifies this
      ensures rc == (if ok then 0 else -1)
      ensures ok ==> fresh(data) && data[..] == Resized(old(data[..]), n, fill)
      ensures !ok ==> data == old(data)
    {
      if !ok {
        return -1;
      }
      var was := data[..];
      var grown := Resized(was, n, fill);
      data := new byte[n](i requires 0 <= i < n => grown[i]);
      assert data[..] == grown;
      rc := 0;
    }

    /** `bpf_l3_csum_replace` for a two-byte field. */
    method L3CsumReplace(off: nat, from: u16, to: u16, ok: bool) returns (rc: int)
      modifies data
      ensures rc == 0 <==> ok && off + 2 <= data.Length
      ensures rc == 0 || rc == -1
      ensures data[..] == if rc == 0
                          then Splice(old(data[..]), off, Put16(CsumReplace(Get16(old(data[..]), off), from, to)))
                          else old(data[..])
    {
      if !ok || off + 2 > data.Length {
        return -1;
      }
      var hc := Get16(data[..], off);
      rc := StoreBytes(off, Put16(CsumReplace(hc, from, to)), true);
    }

    /** `bpf_crypto_encrypt` / `bpf_crypto_decrypt` in place. */
    method Crypt(c: Cipher, d: Direction, body: Dynptr, iv: Dynptr, o: KfuncOracle) returns (rc: int)
      requires body.off + body.len <= data.Length && iv.off + iv.len <= data.Length
      requires iv.len == IV_BYTES
      modifies data
      ensures rc == if KfuncSucceeds(c, body.len, o) then 0 else -1
      ensures data[..] == KfuncFrame(old(data[..]), c, d, body.off, body.len, iv.off, o)
    {
      rc := if KfuncSucceeds(c, body.len, o) then 0 else -1;
      var was := data[..];
      var out := KfuncFrame(was, c, d, body.off, body.len, iv.off, o);
      forall i | 0 <= i < data.Length {
        data[i] := out[i];
      }
      assert data[..] == out;
    }
  }

  // ----- Events -------------------------------------------------------------------------------

  /** `struct ebaf_crypto_event` without its time stamp. */
  datatype Event = Event(
    srcIp: u32, dstIp: u32, srcPort: u16, dstPort: u16, payloadLen: u16, dataLen: u16,
    action: byte, algo: byte, sampleLen: byte, sample: bytes)

  /** The event a hook emits about `dataLen` body bytes at `off`, unless the ring is full. The
      sample ends after 32 bytes, at the end of the body, or at the first byte that fails to load. */
  function EventOf(f: bytes, udpOff: nat, payloadLen: nat, dataLen: nat, off: nat,
                   cfg: CryptoConfig, o: EventOracle): (e: Option<Event>)
    requires ETH_BYTES + IP_BYTES <= udpOff && udpOff + UDP_BYTES <= |f| && off + dataLen <= |f|
    ensures e.Some? <==> o.reserve
    ensures e.Some? ==> |e.value.sample| == EVENT_SAMPLE_BYTES
  {
    if !o.reserve then None else
    var k := Min(Min(EVENT_SAMPLE_BYTES, dataLen), o.loads);
    Some(Event(Get32(f, 26), Get32(f, 30), Get16(f, udpOff), Get16(f, udpOff + 2),
               payloadLen % 0x1_0000, dataLen % 0x1_0000, cfg.action % 0x100, cfg.algo % 0x100,
               k, f[off..off + k] + SampleRest(k, o)))
  }

  function SampleRest(k: nat, o: EventOracle): (r: bytes)
    requires k <= EVENT_SAMPLE_BYTES
    ensures |r| == EVENT_SAMPLE_BYTES - k
  {
    var reserved := seq<byte>(EVENT_SAMPLE_BYTES, i requires i >= 0 => o.memory(i));
    reserved[k..]
  }

  /** The reserved memory once the first `n` sample bytes of the body at `off` are stored. */
  ghost predicate SampleHolds(s: bytes, f: bytes, off: nat, n: nat, o: EventOracle) {
    n <= EVENT_SAMPLE_BYTES && off + n <= |f| && s == f[off..off + n] + SampleRest(n, o)
  }

  lemma SampleMore(s: bytes, f: bytes, off: nat, n: nat, o: EventOracle)
    requires SampleHolds(s, f, off, n, o) && n < EVENT_SAMPLE_BYTES && off + n < |f|
    ensures |s| == EVENT_SAMPLE_BYTES && SampleHolds(s[n := f[off + n]], f, off, n + 1, o)
  {
  }

  lemma SampleNone(s: bytes, f: bytes, off: nat, o: EventOracle)
    requires |s| == EVENT_SAMPLE_BYTES && off <= |f| && forall i :: 0 <= i < |s| ==> s[i] == o.memory(i)
    ensures SampleHolds(s, f, off, 0, o)
  {
  }

  class EventRing {
    var events: seq<Event>

    constructor ()
      ensures events == []
    {
      events := [];
    }

    method Submit(e: Event)
      modifies this
      ensures events == old(events) + [e]
    {
      events := events + [e];
    }
  }
}
