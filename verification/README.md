# Verification of the eBaF packet path

A Dafny 4.11 model of eBaF: the three packet hooks that encrypt UDP payloads inside the kernel, the
concurrent creation of crypto contexts, the per-CPU counters, and the user-space ends (chat client
and server, checksum, key parser, sample printer, command line). `dafny verify dfyconfig.toml`
checks the whole project.

## How the model is built

Code that changes a packet, a counter, a ring, a context slot or a buffer in place is a method over
a class or an array (`Kernel.Packet`, `Stats.CpuStats`, `Kernel.EventRing`, `CryptoCtx.Contexts`),
with the exits and the order of the program. Each such method is proved equal, state for state, to
a function on values (`TransparentSpec.Run`, `FramedSpec.TcRun`, `FramedSpec.XdpRun`, ...), and the
laws of the system are lemmas about those functions.

* A frame is a byte string; an skb or XDP buffer is linear, so `data_end` is `data` plus its length.
* What the programs must do is also stated apart from how they do it: module `Wire` describes a frame
  by its bytes alone, `TransparentVerdicts` and `FramedVerdicts` give every counted outcome its exact
  condition on them, `TransparentEvents` and `Reports` say what an event must say, and `CommandLine`
  says what a command line means.
* Every kernel helper may fail. An oracle argument says which calls fail, how much padding is
  stored before a failure, what a resize puts into new bytes, what the clock says, what a kfunc
  leaves in the IV window (always arbitrary) and in the body when it fails (arbitrary).
* A cipher is any pair of functions that keep the length and undo each other under one IV on the
  lengths the mode takes: whole blocks for CBC (section 6.2 of NIST SP 800-38A), any length for the
  stream cipher. Nothing else is used about it.
* `bpf_l3_csum_replace` is Eqn. 3 in section 3 of RFC 1624, computed in network byte order;
  `Checksum.CsumReplaceByteOrder` shows that the host's byte order makes no difference.
* Counters are 64 bits wide and wrap; the counter laws are congruences modulo 2^64.
* Concurrency is a state machine with one step per atomic increment or per kernel call; a statement
  about every list of events is a statement about every interleaving.

## Where the code differs from what one might expect

* The incremental checksum does not bring back a field of 0xFFFF: it comes back as 0x0000
  (`Checksum.CsumReplaceUndone`). A correct header checksum is never 0xFFFF
  (`TransparentLaws.CorrectChecksumIsNotFull`), so real traffic is not affected.
* If the IP total length plus padding and tail passes 65535, encryption wraps the field silently
  and the decrypting hook then refuses to repair the lengths, after it has cut the packet and
  counted `crypto_ok` (`TransparentRoundTrip.RoundTrip`, `TransparentLaws.AddThenSubtract`;
  `TransparentWraps.SilentWrap` is such a packet).
* Of several layers of encryption the one that makes the IP length wrap is the one at which
  decryption stops: the hook that takes it off leaves the UDP length as it is, and later hooks
  refuse the packet or decrypt a stale layer. The payload is sure to come back exactly when the
  length does not wrap or wraps on the first layer (`TransparentStale.PayloadGuaranteed`;
  `TransparentNesting.SecondLayerWraps` is a packet on which it does not).
* Two folds of the demo script's `checksum` are enough for every input of `n` bytes exactly when
  `n` is at most 131076 (`Checksum.TwoFoldsExactBound`).
* The transparent hook counts a kfunc failure both as malformed and as failed, and a failure after
  decryption in addition to `crypto_ok` (`TransparentLaws.CounterLaw`,
  `ConcurrentStats.Conservation`).
* An encrypting run that finds no context or no window has already grown the packet: the payload leaves
  in the clear in the shape of a sealed one (`TransparentFailures.PlaintextLeaves`). When the last store
  fails, it leaves encrypted without its IV (`TransparentFailures.IvLost`).
* README.md of the repository lists action 2 (decrypt) as a frame's action byte; `tc_crypto` and the
  chat server accept action 1 only, and `xdp_crypto` does not look (`FramedLaws.HooksAgree`). Nor does
  it look for fragments (`FramedLaws.FragmentDiverges`).
* The transparent hook strips what the last byte says; the chat server also checks the other
  padding bytes (`Chat.HookStripsTheSame`, `Chat.HookStripsMore`).

## Model

| member | source | states |
|---|---|---|
| TransparentRoundTrip.RoundTrip | src/bpf/tc_transparent.bpf.c:279-516 | Encrypting an admitted frame of 1 to 1408 payload bytes and decrypting the result, with all helpers succeeding, always restores the payload and the skb length, and restores every byte up to the end of the UDP payload except the UDP checksum if and only if the IP length has room and the IP checksum field is not 0xFFFF; whatever the kfuncs leave in the IV, the clock, the new bytes and any trailer |
| TransparentRoundTrip.RoundTripWholeFrame | src/bpf/tc_transparent.bpf.c:279-516 | Without a link-layer trailer the whole frame comes back with its UDP checksum zeroed |
| TransparentRoundTrip.EncryptSeals | src/bpf/tc_transparent.bpf.c:279-378 | What lies on the wire after a successful encryption: moved lengths and checksum, the ciphertext of the padded payload, and a tail header holding the body length and the same IV although the kfunc overwrote it |
| TransparentRoundTrip.DecryptOpens | src/bpf/tc_transparent.bpf.c:379-516 | A decrypting run on any frame that seals a datagram, whatever its UDP checksum and trailer, gives the datagram's headers and payload back, or records a failure after crypto_ok exactly when the IP length had wrapped |
| TransparentRoundTrip.SealedIsAdmitted | src/bpf/tc_transparent.bpf.c:380-413 | A sealed frame passes admission and every tail check of the peer |
| TransparentRoundTrip.CryptedLayout | src/bpf/tc_transparent.bpf.c:425-458 | The kfunc windows lie side by side: the body becomes the cipher's output, magic, version, action and length stay, and an encrypting run puts its IV back |
| TransparentRoundTrip.UpdateLengthsLayout | src/bpf/tc_transparent.bpf.c:86-129 | A successful update moves both lengths by delta modulo 2^16, updates the IP checksum for the changed word, clears the UDP checksum and changes nothing else |
| TransparentNesting.NestedRoundTrip | src/bpf/tc_transparent.bpf.c:279-289 | After any number k of encrypting runs, each on at most 1408 bytes, the payload length is 16*(n/16+1)+24+32*(k-1); after k decrypting runs all bytes up to the payload end, the UDP checksum aside, are back if and only if the IP total length had room for all layers and the checksum field was not 0xFFFF; the payload and the packet length are back also when the IP length wrapped on the first layer |
| TransparentNesting.NestedPayload | src/bpf/tc_transparent.bpf.c:479-516 | With less than 32 bytes of link-layer trailer the payload and the packet length come back if and only if the IP length had room for all layers or wrapped on the first |
| TransparentNesting.SecondLayerWraps | src/bpf/tc_transparent.bpf.c:102-112 | A packet with IP total length 65500 and 15 payload bytes: the second layer wraps, and two decrypting runs leave it 25 bytes too long with a UDP length of 80 |
| TransparentNesting.WrappedIsNotSame | src/bpf/tc_transparent.bpf.c:110-112 | Once a layer has wrapped, as many decrypting runs do not restore the frame: the IP total length stays below the original |
| TransparentStale.PayloadGuaranteed | src/bpf/tc_transparent.bpf.c:279-516 | For every frame, whatever its trailer: the payload comes back for every cipher, clock, new byte and IV left by the kfunc, all calls succeeding, if and only if the IP length has room for all layers or wraps on the first |
| TransparentStale.WrappedIsCut | src/bpf/tc_transparent.bpf.c:494-515 | Taking off a layer whose IP length wrapped cuts the packet after decryption and repairs nothing |
| TransparentStale.LayerGetsStale | src/bpf/tc_transparent.bpf.c:380-402 | With a trailer as long as the layer the cut packet still passes for a sealed one, with what the kfunc left as its IV |
| TransparentWraps.SilentWrap | src/bpf/tc_transparent.bpf.c:102-112 | A packet with IP total length 65535: encrypted and counted `crypto_ok`, decrypted to its payload with an IP total length of 24 and a UDP length of 48, and counted as a failure after `crypto_ok` |
| TransparentWraps.DecryptNeverRaises | src/bpf/tc_transparent.bpf.c:379-516 | No decrypting run raises the IP total length, for every frame and every helper failure |
| TransparentNesting.LayerLenClosedForm | src/bpf/tc_transparent.bpf.c:284-288 | The growth per layer summed: the first layer pads, every further layer adds exactly 32 bytes |
| TransparentNesting.EncryptedLayers | src/bpf/tc_transparent.bpf.c:279-378 | Invariant of nested encryption: after k runs the frame is again an admissible datagram of the k-layer length, whatever the IP length does |
| TransparentNesting.Unwind | src/bpf/tc_transparent.bpf.c:379-516 | Invariant of unwinding: after i decrypting runs the frame is the one that all but i of the encrypting runs had made, if none of the layers taken off had made the IP length wrap |
| TransparentLaws.UpdateLengthsKeepsChecksum | src/bpf/tc_transparent.bpf.c:86-129 | A correct IPv4 header checksum is still, bit for bit, the checksum recomputed over the changed header |
| TransparentLaws.WireChecksum | src/bpf/tc_transparent.bpf.c:357-360 | A whole encrypting run leaves a correct header checksum and a zero UDP checksum |
| TransparentLaws.CorrectChecksumIsNotFull | src/bpf/tc_transparent.bpf.c:116-118 | A correct header checksum is never 0xFFFF |
| TransparentLaws.CorrectFramesSurvive | src/bpf/tc_transparent.bpf.c:279-516 | A frame with a correct header checksum survives the round trip exactly when its IP length has room |
| TransparentLaws.AddThenSubtract | src/bpf/tc_transparent.bpf.c:102-112 | For any two 16-bit lengths and delta in 25..40 the later subtraction succeeds, and restores the fields, if and only if neither addition passed 65535; otherwise it changes nothing |
| TransparentLaws.RunKeepsHeaders | src/bpf/tc_transparent.bpf.c:208-518 | For every input and every helper failure: a packet not admitted is untouched, no run writes a header byte outside the lengths and checksums, and an event is emitted if and only if the packet is counted as crypto_ok and the ring has room |
| TransparentLaws.EventsMatchOk | src/bpf/tc_transparent.bpf.c:460-477 | Over any sequence of packets the events emitted, with those for which the ring had no room, are the packets counted as crypto_ok |
| TransparentFailures.FailedDecryptIsClean | src/bpf/tc_transparent.bpf.c:379-453 | A decrypting run that ends as passed, failed or malformed with a reason leaves the frame byte for byte as it was and emits no event |
| TransparentFailures.PrepareGoesIff | src/bpf/tc_transparent.bpf.c:280-375 | The steps before encryption succeed if and only if the payload has 1 to 1408 bytes and each helper call does |
| TransparentFailures.PrepareKeepsPayload | src/bpf/tc_transparent.bpf.c:280-375 | No step before encryption touches the payload, whether it succeeds or fails |
| TransparentFailures.PlaintextLeaves | src/bpf/tc_transparent.bpf.c:357-444 | When the context or a window is missing after the length update, the packet leaves with its payload in the clear, padded, with the tail header and the lengths of a sealed one, and stays admissible |
| TransparentFailures.FailedEncryptKeepsPayload | src/bpf/tc_transparent.bpf.c:279-444 | An encrypting run that does not reach the kfunc is malformed with a reason and the payload is still there |
| TransparentFailures.IvLost | src/bpf/tc_transparent.bpf.c:446-458 | When only the store of the IV fails, the body is the ciphertext under the clock's IV while the IV field holds what the kfunc left |
| TransparentFailures.LengthsPartly | src/bpf/tc_transparent.bpf.c:86-129 | What a length update leaves, complete or not: IP checksum, IP length, UDP length and UDP checksum are stored in this order, each only after all calls before it succeeded, and no other byte changes |
| TransparentFailures.PaddingPartly | src/bpf/tc_transparent.bpf.c:317-329 | A padding store that fails leaves the padding before it in a packet that has grown, and everything up to the payload end as it was |
| TransparentFailures.FailedCipherKeeps | src/bpf/tc_transparent.bpf.c:415-458 | Without a context or a window the packet stays as it is; a failing kfunc or IV store changes the body and the IV field only |
| TransparentLaws.CounterLaw | src/bpf/tc_transparent.bpf.c:446-516 | Over any sequence of packets, with k kfunc failures and p failures recorded after crypto_ok: seen + k + p = passed + crypto_ok + crypto_fail + malformed, and malformed = the seven reasons + k |
| TransparentVerdicts.RefusedVerdict | src/bpf/tc_transparent.bpf.c:212-277 | For every frame and configuration that is not a whole datagram for the hook: the frame is untouched, and passed, crypto_fail, bad_eth, bad_ip and bad_udp are each counted under an exact condition on the bytes of the frame and the configuration |
| TransparentVerdicts.ReadyMeans | src/bpf/tc_transparent.bpf.c:216-277 | A packet is for the hook exactly when its bytes are those of a whole unfragmented IPv4/UDP datagram for the port, under an AES-CBC action |
| TransparentVerdicts.EncryptVerdict | src/bpf/tc_transparent.bpf.c:279-458 | For every encrypting run on such a datagram: which of the nine outcomes is counted, each with its exact condition on the payload length and the helper calls |
| TransparentVerdicts.UnsealedIsRefused | src/bpf/tc_transparent.bpf.c:380-413 | A decrypting run refuses, untouched, exactly the payloads whose last 24 bytes are not the magic number, version 1 and the length of what comes before in whole blocks: bad_magic for the first two, bad_length for the rest; any other payload gets as far as the context lookup |
| TransparentVerdicts.DecryptVerdict | src/bpf/tc_transparent.bpf.c:379-458 | For every decrypting run: which outcome is counted, each with its exact condition on the tail bytes and the helper calls |
| TransparentVerdicts.OpenedVerdict | src/bpf/tc_transparent.bpf.c:479-516 | On every payload with a well-formed tail, sealed or not: the last byte of what the kfunc returns decides between success and the two late failures, and what is left of the packet |
| TransparentEvents.IvIsTheClock | src/bpf/tc_transparent.bpf.c:131-138 | Every successful encrypting run leaves, in the IV field, eight bytes twice whose little-endian value is the clock, and the body encrypted under them |
| TransparentEvents.EncryptReports | src/bpf/tc_transparent.bpf.c:140-173 | The event of an encrypting run names the addresses, ports and payload length of the packet it was given, the body length, the configured action and algorithm, and the start of the ciphertext |
| TransparentEvents.DecryptReports | src/bpf/tc_transparent.bpf.c:140-173 | The event of a decrypting run likewise, with the start of the plaintext |
| TransparentRechecks.GrowRecheck | src/bpf/tc_transparent.bpf.c:294-315 | The pointer re-checks after a successful resize hold, whatever padding is stored |
| TransparentRechecks.TailRechecks | src/bpf/tc_transparent.bpf.c:342-375 | The re-checks after the tail header and after the length update hold, whichever of their stores fail |
| TransparentRechecks.CipherRecheck | src/bpf/tc_transparent.bpf.c:463-476 | The re-check after the kfunc holds for every outcome of the kfunc |
| TransparentRechecks.ShrinkRecheck | src/bpf/tc_transparent.bpf.c:500-510 | The re-check after the packet is cut holds |
| TransparentSpec.Admitted | src/bpf/tc_transparent.bpf.c:212-277 | A packet is admitted with n payload bytes if and only if it is a whole unfragmented IPv4/UDP datagram with a 20-byte IP header for the configured port, and the configuration is an AES-CBC action; the verdicts of the others are `TransparentVerdicts.RefusedVerdict` |
| TransparentSpec.PadLen | src/bpf/tc_transparent.bpf.c:284-286 | Between 1 and 16 bytes of padding make the payload a whole number of blocks |
| TcTransparent.TcTransparent | src/bpf/tc_transparent.bpf.c:176-519 | The program in place: packet, counters and event ring end exactly as the function `Run` says, for every input and every helper failure; the exits at the re-checks are dead |
| TcTransparent.EncryptInPlace | src/bpf/tc_transparent.bpf.c:279-378 | The encrypting path in place against `EncryptRun` |
| TcTransparent.PrepareInPlace | src/bpf/tc_transparent.bpf.c:279-375 | Everything before encryption in place against `Prepare` |
| TcTransparent.DecryptInPlace | src/bpf/tc_transparent.bpf.c:379-516 | The decrypting path in place against `DecryptRun` |
| TcTransparent.AdmitInPlace | src/bpf/tc_transparent.bpf.c:208-277 | The early exits, each with its counters, against `Admitted`; it goes on exactly for the datagrams that are for the hook by their bytes |
| TcTransparent.GrowAndPadInPlace | src/bpf/tc_transparent.bpf.c:280-329 | Bounds, resize and padding in place |
| TcTransparent.StorePadding | src/bpf/tc_transparent.bpf.c:317-329 | The padding loop stores the pad length pad-length times, or stops at the first failing store with what it has stored |
| TcTransparent.StoreTailInPlace | src/bpf/tc_transparent.bpf.c:330-375 | Tail header and length update in place |
| TcTransparent.CheckTailInPlace | src/bpf/tc_transparent.bpf.c:380-413 | The tail checks of the decrypting path with their counters; it goes on exactly for payloads that end like sealed ones, by their bytes |
| TcTransparent.CheckHeaderInPlace | src/bpf/tc_transparent.bpf.c:395-413 | The tail header's magic, version and lengths, each failure with its counters |
| TcTransparent.SetUpWindows | src/bpf/tc_transparent.bpf.c:415-444 | On success the dynptrs are exactly the body and the IV window; on failure the right counters are bumped |
| TcTransparent.CryptInPlace | src/bpf/tc_transparent.bpf.c:415-458 | Context, windows, kfunc and IV in place, every failure with its counter |
| TcTransparent.FinishInPlace | src/bpf/tc_transparent.bpf.c:479-516 | Pad length, cut and length repair in place, on counters that already hold crypto_ok |
| TcTransparent.CutInPlace | src/bpf/tc_transparent.bpf.c:494-515 | The cut and the length repair; both failures count as crypto_fail |
| TcTransparent.UpdateLengthsInPlace | src/bpf/tc_transparent.bpf.c:86-129 | `update_lengths` in place, with the partial effect of every failing call |
| TcTransparent.FillIv | src/bpf/tc_transparent.bpf.c:131-138 | The IV is the same eight bytes twice, and their little-endian value is the clock |
| TcTransparent.EmitEvent | src/bpf/tc_transparent.bpf.c:140-173 | At most one event is appended, with the addresses, ports, lengths and sample of the packet |
| TcTransparent.LoadSample | src/bpf/tc_transparent.bpf.c:159-171 | The sample is the first body bytes up to 32, the body length or the first failing load, and the reserved memory behind them |
| TcTransparent.Recheck | src/bpf/tc_transparent.bpf.c:294-315 | The sequence of bound checks decides exactly whether headers and `need` payload bytes fit |
| FramedLaws.HooksAgree | src/bpf/xdp_crypto.bpf.c:135-294 | `tc_crypto` and `xdp_crypto` leave the same frame, outcome and event if and only if the input is no fragment, no configuration outside AES-CBC actions that reaches the port test, and no accepted header with an action byte other than 1 |
| FramedLaws.FragmentDiverges | src/bpf/tc_crypto.bpf.c:173-177 | On a 34-byte first fragment `tc_crypto` counts a malformed packet with a bad IP header and `xdp_crypto` passes it, under every configuration |
| FramedVerdicts.TcVerdict | src/bpf/tc_crypto.bpf.c:148-321 | What `tc_crypto` counts for every frame, configuration and kernel: each of the ten outcomes with its exact condition on the bytes; a frame it does not accept is untouched |
| FramedVerdicts.XdpVerdict | src/bpf/xdp_crypto.bpf.c:131-294 | What `xdp_crypto` counts for every frame, configuration and kernel, likewise |
| FramedVerdicts.TcReports | src/bpf/tc_crypto.bpf.c:83-119 | The event of `tc_crypto` names the addresses, ports and payload length of its packet, the body length, the configured action and algorithm, and the first 32 bytes of what the cipher made of the body |
| FramedVerdicts.XdpReports | src/bpf/xdp_crypto.bpf.c:68-103 | The event of `xdp_crypto` likewise |
| FramedLaws.TransformFrame | src/bpf/tc_crypto.bpf.c:255-317 | A successful run turns the body into the cipher's output under the IV in the frame, zeroes the UDP checksum and changes nothing else, though the kfunc may overwrite the IV |
| FramedLaws.TransformFailure | src/bpf/tc_crypto.bpf.c:257-321 | An unsuccessful run leaves the frame alone unless the kfunc itself failed, and then changes nothing outside IV and body |
| FramedGroup.OnlyTheBalanceMatters | src/bpf/tc_crypto.bpf.c:234-317 | Two non-empty lists of successful runs, through either hook, with the same number of encryptions minus decryptions leave byte-identical frames |
| FramedGroup.BalancedIsIdentity | src/bpf/xdp_crypto.bpf.c:203-289 | A balanced list of runs gives the frame back with its UDP checksum zeroed |
| FramedGroup.StepAllMoves | src/bpf/xdp_crypto.bpf.c:203-289 | Invariant over whole runs: every run succeeds, the frame stays accepted, and the body is the original moved by the balance |
| FramedGroup.StaysAdmitted | src/bpf/tc_crypto.bpf.c:152-253 | A successful run keeps a frame accepted, in both directions, with the same body and IV |
| FramedGroup.PowerStep | src/bpf/tc_crypto.bpf.c:308-311 | One more run in either direction moves the body one step, from any balance |
| FramedGroup.XdpStepAllMoves | src/bpf/xdp_crypto.bpf.c:217-289 | On every frame `xdp_crypto` admits, stream cipher included, any list of runs succeeds and moves the body by its balance |
| FramedGroup.XdpOnlyTheBalanceMatters | src/bpf/xdp_crypto.bpf.c:217-289 | In any mode two non-empty lists of `xdp_crypto` runs with the same balance leave byte-identical frames, and a balanced list the original with its UDP checksum zeroed |
| FramedGroup.XdpPairRestores | src/bpf/xdp_crypto.bpf.c:217-289 | In particular two opposite runs in either order restore the frame |
| FramedHooks.TcCrypto | src/bpf/tc_crypto.bpf.c:122-324 | `tc_crypto` in place: frame, counters and events as `TcRun` says, for every input and helper failure |
| FramedHooks.XdpCrypto | src/bpf/xdp_crypto.bpf.c:106-295 | `xdp_crypto` in place: frame, counters and events as `XdpRun` says, for every input and helper failure |
| FramedHooks.TcHeadersInPlace | src/bpf/tc_crypto.bpf.c:148-210 | The early exits of `tc_crypto` up to the port test with their counters |
| FramedHooks.TcAdmitInPlace | src/bpf/tc_crypto.bpf.c:148-253 | All early exits of `tc_crypto` with their counters; all reads lie inside the frame |
| FramedHooks.XdpHeadersInPlace | src/bpf/xdp_crypto.bpf.c:131-179 | The early exits of `xdp_crypto` up to the port test with their counters |
| FramedHooks.XdpAdmitInPlace | src/bpf/xdp_crypto.bpf.c:131-221 | All early exits of `xdp_crypto` with their counters; all reads lie inside the frame |
| FramedHooks.TransformInPlace | src/bpf/tc_crypto.bpf.c:255-321 | IV copy, context, windows, kfunc, checksum, IV restore, counter and event in place |
| FramedHooks.SetUpWindows | src/bpf/xdp_crypto.bpf.c:225-274 | On success the dynptrs are exactly the body and the IV window; on failure the right counter is bumped |
| FramedHooks.RunCipherInPlace | src/bpf/xdp_crypto.bpf.c:276-289 | The kfunc of the configured action, and the restored IV and zero checksum only on its success |
| FramedHooks.EmitCryptoEvent | src/bpf/xdp_crypto.bpf.c:68-103 | At most one event is appended, with the addresses, ports, lengths and sample of the packet |
| FramedHooks.CopySample | src/bpf/tc_crypto.bpf.c:108-116 | The sample is the first min(32, body length) body bytes and the reserved memory behind them |
| FramedSpec.TcAdmitted | src/bpf/tc_crypto.bpf.c:152-253 | An admitted frame has disjoint IV and body windows inside the frame and a whole number of blocks |
| FramedSpec.XdpAdmitted | src/bpf/xdp_crypto.bpf.c:135-221 | An admitted frame has disjoint IV and body windows inside the frame |
| ChatEndToEnd.MessageArrives | scripts/udp_chat_client.py:44-59 | Every message the client accepts, framed by it, encrypted by one hook and decrypted by another under one key, is parsed and unpadded by the server to the same message |
| ChatEndToEnd.SessionArrives | scripts/udp_chat_server.py:77-101 | A session of any number of messages comes out of the server's loop unchanged and in order |
| ChatEndToEnd.WireCarriesCiphertext | scripts/udp_chat_client.py:50-59 | In between, the body is the ciphertext of the padded message under the IV the client drew |
| ChatEndToEnd.ServerAgreesWithHook | scripts/udp_chat_server.py:40-63 | `parse_packet` accepts a UDP payload if and only if `tc_crypto` admits the frame that carries it, and both find the same body |
| Chat.UnpadIffPad | scripts/udp_chat_server.py:17-23 | On aligned bodies `unpad_body` returns m if and only if `pad_body(m)` is the body |
| Chat.HookStripsTheSame | src/bpf/tc_transparent.bpf.c:489-494 | Where `unpad_body` succeeds the transparent hook strips the same number of bytes; it also strips exactly those bodies whose last byte is in range but whose padding is not uniform |
| Chat.HookStripsMore | scripts/udp_chat_server.py:17-23 | On fifteen zeros and a two the hook strips two bytes and `unpad_body` raises its padding error |
| Chat.ClientServerRoundTrip | scripts/udp_chat_client.py:20-59 | What the client packs, the server parses and unpads to the message |
| Chat.PadBody | scripts/udp_chat_client.py:20-24 | Padding adds 1 to 16 bytes and reaches a whole number of blocks |
| Chat.PacketMeans | scripts/udp_chat_client.py:44-59 | The client sends exactly the messages whose padded packet is at most 65507 bytes, and its packet byte for byte: magic number, version, action, length, IV, message, padding |
| Chat.ParseMeans | scripts/udp_chat_server.py:40-63 | Which complaint `parse_packet` makes about which datagram, and when it makes none |
| Chat.UnpadMeans | scripts/udp_chat_server.py:17-23 | Which complaint `unpad_body` makes about which body |
| Chat.UnpadBody | scripts/udp_chat_server.py:17-23 | Unpadding returns a strictly shorter prefix |
| Chat.ParsePacket | scripts/udp_chat_server.py:40-63 | The returned length is the length of the returned body, which is all of the payload behind the header |
| Chat.Serve | scripts/udp_chat_server.py:73-105 | The receive loop prints the first `count` valid texts in order, skips malformed datagrams, and succeeds exactly when there are enough |
| ConcurrentStats.Conservation | src/bpf/tc_transparent.bpf.c:72-84 | In every reachable interleaving of runs of any of the three hooks on any number of CPUs, seen minus outcomes is the number of runs counted as seen without an outcome yet, less those that have counted a second outcome; malformed minus reasons is the number of runs about to count a reason plus the kfunc failures |
| ConcurrentStats.FramedConservation | src/bpf/xdp_crypto.bpf.c:60-66 | When only framed hooks run, seen minus outcomes is the number of runs counted as seen without an outcome yet, and malformed minus reasons the number of runs between the two increments of `stat_reason` |
| ConcurrentStats.PrintedTotals | src/user/bpf_loader.c:368-403 | Once no run owes an increment the printed totals obey the counter law with the kfunc failures and the failures after crypto_ok of all runs, whatever hooks ran and however they interleaved |
| ConcurrentStats.PrintedTotalsPartition | src/user/bpf_loader.c:368-403 | Once no run of a framed hook owes an increment the printed totals give every packet one outcome and every malformed packet one reason |
| ConcurrentStats.StepKeepsBalance | src/bpf/tc_crypto.bpf.c:75-81 | Every atomic step keeps what the counters say plus what the runs owe |
| ConcurrentStats.SumPerCpu | src/user/bpf_loader.c:368-383 | The summation loop: each total is its counter summed over the CPUs, modulo 2^64 |
| ConcurrentStats.FramedHooksAreFramed | src/bpf/tc_crypto.bpf.c:152-323 | Both framed hooks end every run in exactly one of passed, crypto_ok, crypto_fail or malformed with one reason |
| Stats.BumpCounts | src/bpf/tc_transparent.bpf.c:72-76 | An increment moves its own counter by one, wrapping, and no other |
| Stats.RecordMoves | src/bpf/tc_transparent.bpf.c:72-84 | Which of the twelve counters each outcome moves, by one modulo 2^64, counter by counter |
| Stats.RecordIsBumpAll | src/bpf/tc_transparent.bpf.c:78-84 | Recording an outcome is making its list of increments one by one |
| Stats.OutcomeWeights | src/bpf/tc_transparent.bpf.c:446-516 | Which outcomes balance a seen packet, and which are counted once more |
| Stats.StatBad | src/bpf/tc_transparent.bpf.c:78-84 | Malformed and then the reason are bumped, or nothing without a counter map |
| CryptoCtx.Ownership | src/bpf/crypto_ctx.bpf.c:58-72 | In every interleaving of calls, contexts created minus released are the one in the slot plus those held by calls in progress; none is released twice, and a released one is neither in the slot nor held |
| CryptoCtx.AtRest | src/bpf/crypto_ctx.bpf.c:68-72 | When all calls have ended the slot holds the context of the last exchange, if any, and every other one has been released exactly once |
| CryptoCtx.StepMoves | src/bpf/crypto_ctx.bpf.c:58-72 | Every kernel call moves a context from one owner to one other, or creates one |
| CryptoCtx.CallAloneMeans | src/bpf/crypto_ctx.bpf.c:28-73 | Undisturbed, a call returns zero exactly when it put a context made from the configuration into the slot; otherwise the slot is unchanged and the context it created, if any, is the one it released |
| CryptoCtx.CallCodes | src/bpf/crypto_ctx.bpf.c:38-73 | The exact condition of each return code; on zero the slot holds a "cbc(aes)" context with the first 16 key bytes or a "chacha20" context with all 32, as the configuration says |
| CryptoCtx.UninterruptedCall | src/bpf/crypto_ctx.bpf.c:28-73 | Three uninterrupted steps of the concurrent machine are the call on its own |
| CryptoCtx.Contexts.CreateCryptoCtx | src/bpf/crypto_ctx.bpf.c:28-73 | The program in place against `CallAlone` |
| CryptoCtx.GateOf | src/bpf/crypto_ctx.bpf.c:38-56 | A call is granted exactly for AES with a key length of 16 and ChaCha20 with one of 32, and asks for that cipher with that many bytes of the key field |
| Checksum.CsumReplaceIsExact | src/bpf/tc_transparent.bpf.c:116-118 | For a non-zero sum the incremental update equals the complement of the new folded sum |
| Checksum.CsumReplaceUndone | src/bpf/tc_transparent.bpf.c:116-118 | Replacing a word and replacing it back restores every field but 0xFFFF, which becomes 0 |
| Checksum.CsumReplaceByteOrder | src/bpf/tc_transparent.bpf.c:102-117 | Updating byte-swapped words gives the byte-swapped field |
| Checksum.ChecksumTwoFolds | scripts/demo_live_cipher.py:31-37 | On inputs up to 131076 bytes the script's value is the complement of the fully folded sum |
| Checksum.TwoFoldsSuffice | scripts/demo_live_cipher.py:35-36 | Two folds leave no carry on inputs up to 131076 bytes |
| Checksum.TwoFoldsExactBound | scripts/demo_live_cipher.py:31-37 | For every n: the script's value is the checksum of every input of n bytes if and only if n is at most 131076 |
| Checksum.TwoFoldsFailBeyondBound | scripts/demo_live_cipher.py:35-37 | On one input of 131077 bytes, and on it with any number of zeros behind it, the script's value is 0xFFFF where the checksum is 0xFFFE |
| Checksum.StoredChecksumVerifies | scripts/demo_live_cipher.py:31-37 | Storing the value in a zeroed even-offset field makes the buffer sum to 0xFFFF |
| Checksum.FullFoldIsResidue | scripts/demo_live_cipher.py:34-36 | Full folding gives the residue modulo 0xFFFF in 1..0xFFFF, and zero for zero only |
| Hex.ParsePrint | src/user/config.c:19-40 | Parsing the printed text of any bytes gives the bytes back |
| Hex.PrintParse | src/user/event_format.c:24-38 | Printing any parsed text gives its lower-case form |
| Hex.ParseHexKey | src/user/config.c:19-40 | The key parser in place: it succeeds exactly on texts of the right length made of hex digits, writes the decoded bytes and nothing beyond them |
| Hex.FormatSampleHex | src/user/event_format.c:24-38 | The sample printer in place: at most 32 bytes in lower-case hex, a terminator, the rest untouched |
| Hex.SampleDecodes | src/bpf/tc_transparent.bpf.c:159-171 | The printed sample of any event decodes to the bytes it was made from: 32, or the whole body, or those before the first load that failed |
| Hex.FramedSampleDecodes | src/bpf/tc_crypto.bpf.c:108-116 | For a framed run these are the first min(32, length) bytes of what the cipher makes of the body, so plaintext for decryption |
| Config.AcceptedIsValid | src/user/config.c:73-152 | Every accepted command line gives a valid action, port, algorithm, key length and zero key bytes beyond it, and `create_crypto_ctx` never refuses it |
| Config.RenderedParsesBack | src/user/config.c:77-120 | Options stating a valid configuration parse back to it, in any order and however often each is repeated |
| Config.ValidIffParsed | src/user/config.c:60-153 | The parser's results are exactly the valid configurations |
| Config.ParseArgsInPlace | src/user/config.c:60-153 | The option loop against `ParseArgs` |
| CommandLine.ParseArgsMeans | src/user/config.c:60-153 | A command line is accepted with a configuration if and only if it means that configuration: every option is known and has a readable value, interface, mode and key are given, the last option of a kind wins, and every field is what the option text says or its default |
| Config.ConcludeInPlace | src/user/config.c:122-152 | The checks and the key conversion after the loop |
| Config.ParseNumeral | src/user/config.c:42-58 | Every number in range has a numeral that `parse_uint` accepts as that number |
| CommandLine.ParseUintMeans | src/user/config.c:42-58 | A number is accepted with a value in the range exactly when the text is blanks, an optional sign and decimal digits to the end with that value |
| Config.ParseUint | src/user/config.c:42-58 | An accepted number lies in the given range |

## Left out

- AES, ChaCha20 and the internals of the kfuncs: a cipher is any inverse pair; a failing call and the IV are arbitrary.
- Skeleton loading, attaching and detaching, map sharing, the ring buffer transport and the signal loop: foreign calls and I/O.
- Non-linear skbs, checksum offload, GSO and MTU limits: kernel behaviour; a refused resize is an oracle outcome.
- The quality of the clock-derived IV and cryptographic strength: not functional correctness.
- Event time stamps, `inet_ntop` and the JSON around the sample: only the hex text of the sample is modelled.
- A configuration that changes while a program reads it: each run sees one value of the map element.
- Text encoding: a chat message is the byte string after UTF-8 encoding; sockets and the deadline are the list of datagrams that arrive in time.
- NUL characters inside C strings, and `out_len * 2` overflowing `size_t`: not modelled.
- What a failed `ebaf_parse_args` leaves in the structure it was given: only its result is modelled.
- The dashboard, HTTP handler, experiment scripts, benchmark sender and `stats_format.c`: they would only add easy members.
- TransparentNesting.NestedPayload: for one given cipher and kernel it leaves out frames with 32 bytes of trailer or more, where the outcome depends on the cipher and on what the kfunc leaves in the IV; `TransparentStale.PayloadGuaranteed` covers every frame.
