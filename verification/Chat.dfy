/** The chat client and server: PKCS#7 padding (section 6.3 of RFC 5652), framing and parsing. */
module Chat {
  import opened Bytes
  import opened Layout
  import opened Wire
  import TransparentSpec

  const UDP_MAX_PAYLOAD := 65507

  /** The exceptions the two scripts raise. */
  datatype Problem =
    | ShortPacket | WrongMagic(magic: u32) | WrongVersion(version: byte) | WrongAction(action: byte)
    | WrongLength(declared: u16, actual: nat) | EmptyPayload | WrongAlignment(n: nat)
    | NoBody | PaddingLength(last: byte) | PaddingBytes
    | TooLarge

  datatype Result<+T> = Ok(value: T) | Err(problem: Problem)

  // ----- Padding ------------------------------------------------------------------------------

  /** `pad_body`. */
  function PadBody(body: bytes): (r: bytes)
    ensures |r| % BLOCK_BYTES == 0 && |body| < |r| <= |body| + BLOCK_BYTES
  {
    var rest := -|body| % BLOCK_BYTES;
    var padLen := if rest == 0 then BLOCK_BYTES else rest;
    body + Repeat(padLen, padLen)
  }

  /** `unpad_body`. On an empty body the script fails on `body[-1]`. */
  function UnpadBody(body: bytes): (r: Result<bytes>)
    ensures r.Ok? ==> r.value <= body && |r.value| < |body|
  {
    if body == [] then Err(NoBody) else
    var padLen := body[|body| - 1];
    if padLen < 1 || padLen > BLOCK_BYTES then Err(PaddingLength(padLen)) else
    if |body| < padLen || body[|body| - padLen..] != Repeat(padLen, padLen) then Err(PaddingBytes) else
    Ok(body[..|body| - padLen])
  }

  /** On aligned bodies `unpad_body` accepts exactly what `pad_body` makes, and gives back what it
      was made from. */
  lemma UnpadIffPad(body: bytes, m: bytes)
    ensures |body| % BLOCK_BYTES == 0 && UnpadBody(body) == Ok(m) <==> PadBody(m) == body
  {
    if PadBody(m) == body {
      var p := |body| - |m|;
      assert body[|body| - 1] == p;
      assert body[|body| - p..] == Repeat(p, p);
      assert body[..|body| - p] == m;
    }
    if |body| % BLOCK_BYTES == 0 && UnpadBody(body) == Ok(m) {
      var p := body[|body| - 1];
      assert body == body[..|body| - p] + body[|body| - p..];
      PadLenOf(|m|, p);
    }
  }

  lemma PadLenOf(n: nat, p: nat)
    requires 1 <= p <= BLOCK_BYTES && (n + p) % BLOCK_BYTES == 0
    ensures p == if (0 - n) % BLOCK_BYTES == 0 then BLOCK_BYTES else (0 - n) % BLOCK_BYTES
  {
  }

  /** Where the script unpads, the transparent hook strips as many bytes; the hook also strips where
      the script objects, exactly when the last byte is in range but the padding is not uniform. */
  lemma HookStripsTheSame(body: bytes)
    requires body != [] && |body| % BLOCK_BYTES == 0
    ensures var strip := TransparentSpec.StripLen(body[|body| - 1], |body|);
            && (UnpadBody(body).Ok? ==> strip == Some(|body| - |UnpadBody(body).value|))
            && (strip.Some? && UnpadBody(body).Err?
                <==> 1 <= body[|body| - 1] <= BLOCK_BYTES
                     && exists i :: |body| - body[|body| - 1] <= i < |body| && body[i] != body[|body| - 1])
  {
    var p := body[|body| - 1];
    if 1 <= p <= BLOCK_BYTES {
      var tail := body[|body| - p..];
      if tail != Repeat(p, p) {
        var k :| 0 <= k < p && tail[k] != p;
        assert body[|body| - p + k] != p;
      } else {
        assert forall i :: |body| - p <= i < |body| ==> body[i] == tail[i - (|body| - p)];
      }
    }
  }

  /** A body whose last byte says two, with a zero before it: the hook strips two bytes, the script
      refuses it. */
  lemma HookStripsMore()
    ensures var body := Repeat(0, 15) + [2];
            && UnpadBody(body) == Err(PaddingBytes)
            && TransparentSpec.StripLen(body[|body| - 1], |body|) == Some(2)
  {
    var body := Repeat(0, 15) + [2];
    assert body[14..][0] != Repeat(2, 2)[0];
  }

  // ----- Framing ------------------------------------------------------------------------------

  /** The size check and the header packing of the client's `main`. */
  function ClientPacket(message: bytes, iv: bytes): (r: Result<bytes>)
    requires |iv| == IV_BYTES
  {
    var body := PadBody(message);
    if |body| > 0xFFFF || HEADER_BYTES + |body| > UDP_MAX_PAYLOAD then Err(TooLarge) else
    Ok(Header(ACTION_ENCRYPT, |body|, iv) + body)
  }

  /** `parse_packet`: the declared length and the body. */
  function ParsePacket(data: bytes): (r: Result<(nat, bytes)>)
    ensures r.Ok? ==> r.value.0 == |r.value.1| && |data| == HEADER_BYTES + |r.value.1|
  {
    if |data| < HEADER_BYTES then Err(ShortPacket) else
    var magic := Get32(data, 0);
    if magic != MAGIC then Err(WrongMagic(magic)) else
    if data[4] != VERSION then Err(WrongVersion(data[4])) else
    if data[5] != ACTION_ENCRYPT then Err(WrongAction(data[5])) else
    var declared := Get16(data, 6);
    var body := data[HEADER_BYTES..];
    if declared != |body| then Err(WrongLength(declared, |body|)) else
    if declared == 0 then Err(EmptyPayload) else
    if declared % BLOCK_BYTES != 0 then Err(WrongAlignment(declared)) else
    Ok((declared, body))
  }

  /** The length of the message with its padding. */
  function PaddedLen(n: nat): nat {
    16 * (n / 16 + 1)
  }

  /** A packet as it lies on the wire: magic number, version 1, action 1, the length of the padded
      message, the IV, the message, and padding bytes that say how many they are. */
  predicate PacketOf(p: bytes, message: bytes, iv: bytes) {
    var n := PaddedLen(|message|);
    && |p| == 24 + n
    && Field(p, 0, 4) == 0x45424146 && p[4] == 1 && p[5] == 1 && Field(p, 6, 2) == n
    && p[8..24] == iv && p[24..24 + |message|] == message
    && forall i :: 24 + |message| <= i < |p| ==> p[i] as int == n - |message|
  }

  lemma PadBodyMeans(message: bytes)
    ensures var r, n := PadBody(message), PaddedLen(|message|);
            && |r| == n && r[..|message|] == message
            && forall i :: |message| <= i < n ==> r[i] as int == n - |message|
  {
  }

  /** The client sends exactly the messages whose padded packet fits a UDP datagram of 65507 bytes,
      and this is what it sends. */
  lemma PacketMeans(message: bytes, iv: bytes)
    requires |iv| == IV_BYTES
    ensures ClientPacket(message, iv).Ok? <==> 24 + PaddedLen(|message|) <= 65507
    ensures ClientPacket(message, iv).Ok? ==> PacketOf(ClientPacket(message, iv).value, message, iv)
    ensures ClientPacket(message, iv).Err? ==> ClientPacket(message, iv) == Err(TooLarge)
  {
    PadBodyMeans(message);
    if ClientPacket(message, iv).Ok? {
      var body := PadBody(message);
      var h := Header(ACTION_ENCRYPT, |body|, iv);
      HeaderPrefix(h + body, h, body);
      Field4(h + body, 0);
      Field2(h + body, 6);
      hide Field, Get16, Get32, PadBody;
      assert (h + body)[8..24] == h[8..];
    }
  }

  /** Which complaint `parse_packet` makes about which datagram. */
  lemma ParseMeans(data: bytes)
    ensures var r := ParsePacket(data);
            && (r == Err(ShortPacket) <==> |data| < 24)
            && (|data| >= 24 ==>
                  var magic, declared := Field(data, 0, 4), Field(data, 6, 2);
                  var read := magic == 0x45424146 && data[4] == 1 && data[5] == 1;
                  && (magic < 0x1_0000_0000 && (r == Err(WrongMagic(magic)) <==> magic != 0x45424146))
                  && (r == Err(WrongVersion(data[4])) <==> magic == 0x45424146 && data[4] != 1)
                  && (r == Err(WrongAction(data[5])) <==> magic == 0x45424146 && data[4] == 1 && data[5] != 1)
                  && declared < 0x1_0000
                  && (r == Err(WrongLength(declared, |data| - 24)) <==> read && declared != |data| - 24)
                  && (r == Err(EmptyPayload) <==> read && declared == |data| - 24 == 0)
                  && (r == Err(WrongAlignment(|data| - 24)) <==>
                        read && declared == |data| - 24 && declared % 16 != 0)
                  && (r.Ok? <==> read && declared == |data| - 24 > 0 && declared % 16 == 0)
                  && (r.Ok? ==> r.value == (|data| - 24, data[24..])))
  {
    if |data| >= 24 {
      Field4(data, 0);
      Field2(data, 6);
    }
    hide Field, Get16, Get32;
  }

  /** Which complaint `unpad_body` makes about which body. */
  lemma UnpadMeans(body: bytes)
    requires body != []
    ensures var r, last := UnpadBody(body), body[|body| - 1];
            && (r == Err(PaddingLength(last)) <==> !(1 <= last <= 16))
            && (r == Err(PaddingBytes) <==>
                  1 <= last <= 16 && (|body| < last || exists i :: |body| - last <= i < |body| && body[i] != last))
            && (r.Ok? ==> r.value == body[..|body| - last])
            && (r.Err? ==> r.problem.PaddingLength? || r.problem.PaddingBytes?)
  {
    var p := body[|body| - 1];
    if 1 <= p <= 16 && |body| >= p {
      var tail := body[|body| - p..];
      if tail != Repeat(p, p) {
        var k :| 0 <= k < p && tail[k] != p;
        assert body[|body| - p + k] != p;
      } else {
        assert forall i :: |body| - p <= i < |body| ==> body[i] == tail[i - (|body| - p)];
      }
    }
  }

  lemma HeaderPrefix(data: bytes, h: bytes, body: bytes)
    requires data == h + body && |h| == HEADER_BYTES
    ensures Get32(data, 0) == Get32(h, 0) && data[4] == h[4] && data[5] == h[5]
    ensures Get16(data, 6) == Get16(h, 6) && data[HEADER_BYTES..] == body
  {
  }

  /** What the client sends parses to its padded message, and unpads to the message. */
  lemma ClientServerRoundTrip(message: bytes, iv: bytes)
    requires |iv| == IV_BYTES && ClientPacket(message, iv).Ok?
    ensures ParsePacket(ClientPacket(message, iv).value) == Ok((|PadBody(message)|, PadBody(message)))
    ensures UnpadBody(PadBody(message)) == Ok(message)
  {
    hide UnpadBody, Get16, Get32;
    var body := PadBody(message);
    var h := Header(ACTION_ENCRYPT, |body|, iv);
    HeaderPrefix(h + body, h, body);
    UnpadIffPad(body, message);
  }

  // ----- The server's loop --------------------------------------------------------------------

  /** What one datagram makes the server print, if anything. */
  function Text(data: bytes): Option<bytes> {
    match ParsePacket(data)
    case Err(_) => None
    case Ok((_, body)) =>
      match UnpadBody(body)
      case Err(_) => None
      case Ok(m) => Some(m)
  }

  /** The texts of the datagrams that have one, in order. */
  function Texts(datagrams: seq<bytes>): seq<bytes>
    decreases |datagrams|
  {
    if datagrams == [] then []
    else
      var t := Text(datagrams[|datagrams| - 1]);
      Texts(datagrams[..|datagrams| - 1]) + if t.Some? then [t.value] else []
  }

  /** The receive loop of the server's `main` on the datagrams that arrive before the deadline:
      malformed ones are skipped, and it stops after `count` valid ones. */
  method Serve(datagrams: seq<bytes>, count: nat) returns (printed: seq<bytes>, status: int)
    ensures |printed| <= count && printed <= Texts(datagrams)
    ensures |printed| == Min(count, |Texts(datagrams)|)
    ensures status == if |Texts(datagrams)| >= count then 0 else 1
  {
    printed := [];
    var i := 0;
    while |printed| < count
      invariant i <= |datagrams| && |printed| <= count
      invariant printed == Texts(datagrams[..i])
      decreases |datagrams| - i
    {
      if i == |datagrams| {
        break;
      }
      assert datagrams[..i + 1][..i] == datagrams[..i];
      var parsed := ParsePacket(datagrams[i]);
      i := i + 1;
      if parsed.Err? {
        continue;
      }
      var body := UnpadBody(parsed.value.1);
      if body.Err? {
        continue;
      }
      printed := printed + [body.value];
    }
    TextsPrefix(datagrams, i);
    assert datagrams[..|datagrams|] == datagrams;
    status := if |printed| != count then 1 else 0;
  }

  lemma {:induction false} TextsPrefix(datagrams: seq<bytes>, i: nat)
    requires i <= |datagrams|
    ensures Texts(datagrams[..i]) <= Texts(datagrams)
    decreases |datagrams|
  {
    hide Text;
    if i == |datagrams| {
      assert datagrams[..i] == datagrams;
    } else {
      var rest := datagrams[..|datagrams| - 1];
      assert rest[..i] == datagrams[..i];
      TextsPrefix(rest, i);
    }
  }
}
