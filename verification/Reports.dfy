/** What an event says about the packet it was emitted for. */
module Reports {
  import opened Bytes
  import opened Layout
  import opened Kernel
  import opened Wire

  /** The event names the addresses and ports of `f` and the length of its UDP payload, the
      configured action and algorithm, and the first bytes of `out`, the body after the run. */
  ghost predicate Describes(e: Event, f: bytes, cfg: CryptoConfig, out: bytes, samples: nat) {
    && WholeUdpHeader(f)
    && e.srcIp == Field(f, 26, 4) && e.dstIp == Field(f, 30, 4)
    && e.srcPort == Field(f, UdpAt(f), 2) && e.dstPort == UdpPort(f)
    && e.payloadLen == UdpLength(f) - 8 && e.dataLen == |out|
    && e.action == cfg.action % 0x100 && e.algo == cfg.algo % 0x100
    && e.sampleLen == samples <= |out| && |e.sample| == 32 && samples <= 32
    && e.sample[..samples] == out[..samples]
  }

  /** The smallest of 32, the body length and the number of bytes that load. */
  function SampleBytes(bodyLen: nat, loads: nat): (k: nat)
    ensures k <= 32 && k <= bodyLen && k <= loads && (k == 32 || k == bodyLen || k == loads)
  {
    Min(Min(32, bodyLen), loads)
  }

  /** An event about a frame `g` that keeps the addresses and ports of `f`. */
  lemma EventReports(f: bytes, g: bytes, n: nat, off: nat, cfg: CryptoConfig, o: EventOracle, out: bytes)
    requires WholeUdpHeader(f) && UdpLength(f) == 8 + n
    requires |g| >= UdpAt(f) + 8 && off + |out| <= |g| && |out| <= 0xFFFF && g[off..off + |out|] == out
    requires g[26..34] == f[26..34] && g[UdpAt(f)..UdpAt(f) + 4] == f[UdpAt(f)..UdpAt(f) + 4]
    requires EventOf(g, UdpAt(f), n, |out|, off, cfg, o).Some?
    ensures Describes(EventOf(g, UdpAt(f), n, |out|, off, cfg, o).value, f, cfg, out, SampleBytes(|out|, o.loads))
  {
    var u := UdpAt(f);
    SameField(f, g, 26, 8, 26, 4);
    SameField(f, g, 26, 8, 30, 4);
    SameField(f, g, u, 4, u, 2);
    SameField(f, g, u, 4, u + 2, 2);
    UdpLengthFits(f);
    hide Field, EventOf, WholeUdpHeader;
    EventFields(g, u, n, |out|, off, cfg, o);
    var k := SampleBytes(|out|, o.loads);
    assert g[off..off + k] == out[..k];
  }

  lemma EventFields(g: bytes, u: nat, n: nat, m: nat, off: nat, cfg: CryptoConfig, o: EventOracle)
    requires 34 <= u && |g| >= u + 8 && off + m <= |g| && m <= 0xFFFF && n <= 0xFFFF
    requires EventOf(g, u, n, m, off, cfg, o).Some?
    ensures var e, k := EventOf(g, u, n, m, off, cfg, o).value, SampleBytes(m, o.loads);
            && e.srcIp == Field(g, 26, 4) && e.dstIp == Field(g, 30, 4)
            && e.srcPort == Field(g, u, 2) && e.dstPort == Field(g, u + 2, 2)
            && e.payloadLen == n && e.dataLen == m
            && e.action == cfg.action % 0x100 && e.algo == cfg.algo % 0x100
            && e.sampleLen == k && |e.sample| == 32 && off + k <= |g| && e.sample[..k] == g[off..off + k]
  {
    Field4(g, 26);
    Field4(g, 30);
    Field2(g, u);
    Field2(g, u + 2);
    hide Field, Get16, Get32, SampleRest;
  }

  lemma SameField(f: bytes, g: bytes, lo: nat, k: nat, at: nat, n: nat)
    requires lo + k <= |f| && lo + k <= |g| && f[lo..lo + k] == g[lo..lo + k] && lo <= at && at + n <= lo + k
    ensures Field(g, at, n) == Field(f, at, n)
  {
    forall i | at <= i < at + n
      ensures f[i] == g[i]
    {
      assert f[i] == f[lo..lo + k][i - lo] && g[i] == g[lo..lo + k][i - lo];
    }
    assert f[at..at + n] == g[at..at + n];
  }

  lemma UdpLengthFits(f: bytes)
    requires WholeUdpHeader(f)
    ensures UdpLength(f) <= 0xFFFF
  {
    Field2(f, UdpAt(f) + 4);
  }
}
