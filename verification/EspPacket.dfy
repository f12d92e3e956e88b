/**
 * ESP packets (section 2.4 of RFC 4303): an IP packet padded, sealed and numbered on the
 * way out; opened, checked against the replay window and unpadded on the way in.
 */
module EspPacket {
  import opened Bytes
  import opened EspContext
  import opened IpPacket

  const IPPROTO_IPIP: byte := 4
  const IPPROTO_IPV6: byte := 41
  const IPPROTO_NONE: byte := 59

  const ESP_HEADER: nat := 8

  datatype Status = Success | Failed | NotFound | ParseError | VerifyError

  /** What the authenticated ciphers behind the interface guarantee. */
  ghost predicate AeadOk(a: Aead) {
    && a.blockSize > 0
    && (a.generateIv.Some? ==> forall n :: a.generateIv.value(n).Some? ==> |a.generateIv.value(n).value| == a.ivSize)
    && (forall plain, aad, iv :: a.seal(plain, aad, iv).Some? ==>
          && |a.seal(plain, aad, iv).value| == |plain| + a.icvSize
          && a.open(a.seal(plain, aad, iv).value, aad, iv) == Some(plain))
  }

  /** Padding bytes 1, 2, 3, ... (as 8-bit values). */
  function Padding(n: nat): (p: seq<byte>)
    ensures |p| == n
  {
    seq(n, i requires 0 <= i < n => (i + 1) % 256)
  }

  /** First to the cipher's block size, then so that the check value starts on a 4-byte boundary. */
  function PadTotal(a: Aead, payloadLen: nat): nat
    requires a.blockSize > 0
  {
    var first := PadLen(payloadLen + 2, a.blockSize);
    first + PadLen(a.ivSize + payloadLen + 2 + first, 4)
  }

  function Plaintext(a: Aead, payload: seq<byte>, nextHeader: byte): seq<byte>
    requires a.blockSize > 0
  {
    var n := PadTotal(a, |payload|);
    payload + Padding(n) + [n % 256, nextHeader]
  }

  function Aad(spi: nat, seqno: nat): seq<byte> {
    U32(spi) + U32(seqno)
  }

  /** The bytes sent, or nothing when the IV or the seal is not to be had. */
  function Sealed(a: Aead, spi: nat, seqno: nat, payload: seq<byte>, nextHeader: byte): Option<seq<byte>>
    requires a.blockSize > 0 && a.generateIv.Some?
  {
    match a.generateIv.value(seqno)
    case None => None
    case Some(iv) =>
      match a.seal(Plaintext(a, payload, nextHeader), Aad(spi, seqno), iv)
      case None => None
      case Some(body) => Some(Aad(spi, seqno) + iv + body)
  }

  datatype Header = Header(spi: nat, seqno: nat, iv: seq<byte>, body: seq<byte>)

  /** Splits a received packet, provided it is long enough and a whole number of blocks. */
  function Split(a: Aead, data: seq<byte>): Option<Header>
    requires a.blockSize > 0
  {
    if |data| < ESP_HEADER + a.ivSize + a.icvSize || (|data| - ESP_HEADER - a.ivSize - a.icvSize) % a.blockSize != 0
    then None
    else Some(Header(FromU32(data[0..4]), FromU32(data[4..8]), data[8..8 + a.ivSize], data[8 + a.ivSize..]))
  }

  /** Removes the trailer; nothing if the padding is malformed or what remains is no IP packet. */
  function Unpad(plain: seq<byte>): Option<(Ip, byte)> {
    if |plain| < 2 then None else
    var nextHeader, n := plain[|plain| - 1], plain[|plain| - 2];
    var rest := plain[..|plain| - 2];
    if n > |rest| || rest[|rest| - n..] != Padding(n) then None else
    match Create(rest[..|rest| - n])
    case None => None
    case Some(ip) => Some((ip, nextHeader))
  }

  /** Block sizes and IV sizes for which one byte holds the padding length and the blocks come out even. */
  predicate CipherShape(a: Aead) {
    a.blockSize == 1 || (a.blockSize % 4 == 0 && 0 < a.blockSize <= 252 && a.ivSize % 4 == 0)
  }

  lemma PadTotalFits(a: Aead, len: nat)
    requires CipherShape(a)
    ensures PadTotal(a, len) <= 255
    ensures (len + 2 + PadTotal(a, len)) % a.blockSize == 0
  {
    hide PadLen;
    var bs := a.blockSize;
    var first := PadLen(len + 2, bs);
    if bs > 1 {
      MultipleOfFour(len + 2 + first, bs);
      NothingToPad(a.ivSize, len + 2 + first);
      assert a.ivSize + (len + 2 + first) == a.ivSize + len + 2 + first;
    }
  }

  lemma NothingToPad(a: nat, b: nat)
    requires a % 4 == 0 && b % 4 == 0
    ensures PadLen(a + b, 4) == 0
  {
    assert (a + b) % 4 == 0 by { SumOfFours(a, b); }
  }

  lemma SumOfFours(a: nat, b: nat)
    requires a % 4 == 0 && b % 4 == 0
    ensures (a + b) % 4 == 0
  {
    assert a + b == 4 * (a / 4 + b / 4);
  }

  lemma MultipleOfFour(n: nat, m: nat)
    requires m > 0 && m % 4 == 0 && n % m == 0
    ensures n % 4 == 0
  {
    var q, k := n / m, m / 4;
    assert n == q * m && m == k * 4;
    assert n == (q * k) * 4;
  }

  /** The check value is 4-byte aligned for every cipher. */
  lemma CheckValueAligned(a: Aead, payload: seq<byte>, nextHeader: byte)
    requires a.blockSize > 0
    ensures (ESP_HEADER + a.ivSize + |Plaintext(a, payload, nextHeader)|) % 4 == 0
  {
    var first := PadLen(|payload| + 2, a.blockSize);
    assert (a.ivSize + |payload| + 2 + first + PadLen(a.ivSize + |payload| + 2 + first, 4)) % 4 == 0;
  }

  /** Unpadding undoes padding, down to reading the payload as an IP packet again. */
  lemma UnpadPlaintext(a: Aead, payload: seq<byte>, nextHeader: byte)
    requires CipherShape(a)
    ensures Unpad(Plaintext(a, payload, nextHeader)) ==
            if Create(payload).None? then None else Some((Create(payload).value, nextHeader))
  {
    hide Create;
    PadTotalFits(a, |payload|);
    var n := PadTotal(a, |payload|);
    var plain := Plaintext(a, payload, nextHeader);
    assert plain[..|plain| - 2] == payload + Padding(n);
    assert (payload + Padding(n))[|payload|..] == Padding(n);
    assert (payload + Padding(n))[..|payload|] == payload;
  }

  /** Splitting a sealed packet yields its number, its IV and a body that opens to the plaintext. */
  lemma SplitSealed(a: Aead, spi: nat, seqno: nat, payload: seq<byte>, nextHeader: byte)
    requires AeadOk(a) && CipherShape(a) && a.generateIv.Some? && spi < U32_LIMIT && seqno < U32_LIMIT
    requires Sealed(a, spi, seqno, payload, nextHeader).Some?
    ensures var data := Sealed(a, spi, seqno, payload, nextHeader).value;
            && Split(a, data).Some?
            && var h := Split(a, data).value;
            && h.spi == spi && h.seqno == seqno && data[..ESP_HEADER] == Aad(spi, seqno)
            && a.open(h.body, data[..ESP_HEADER], h.iv) == Some(Plaintext(a, payload, nextHeader))
  {
    hide U32, FromU32, Plaintext;
    var data := Sealed(a, spi, seqno, payload, nextHeader).value;
    var iv := a.generateIv.value(seqno).value;
    var plain := Plaintext(a, payload, nextHeader);
    var body := a.seal(plain, Aad(spi, seqno), iv).value;
    PlaintextBlocks(a, payload, nextHeader);
    U32RoundTrip(spi);
    U32RoundTrip(seqno);
    assert data[0..4] == U32(spi) && data[4..8] == U32(seqno) && data[..8] == Aad(spi, seqno);
    assert data[8..8 + a.ivSize] == iv && data[8 + a.ivSize..] == body;
  }

  lemma PlaintextBlocks(a: Aead, payload: seq<byte>, nextHeader: byte)
    requires CipherShape(a)
    ensures |Plaintext(a, payload, nextHeader)| % a.blockSize == 0
  {
    PadTotalFits(a, |payload|);
  }

  class Packet {
    var data: seq<byte>
    var payload: Option<Ip>
    var nextHeader: byte

    constructor FromPacket(data: seq<byte>)
      ensures this.data == data && payload == None && nextHeader == IPPROTO_NONE
    {
      this.data, payload, nextHeader := data, None, IPPROTO_NONE;
    }

    constructor FromPayload(payload: Option<Ip>)
      ensures data == [] && this.payload == payload
      ensures nextHeader == if payload.None? then IPPROTO_NONE
                            else if payload.value.version == 4 then IPPROTO_IPIP else IPPROTO_IPV6
    {
      data, this.payload := [], payload;
      nextHeader := IPPROTO_NONE;
      if payload.Some? {
        nextHeader := if payload.value.version == 4 then IPPROTO_IPIP else IPPROTO_IPV6;
      }
    }

    function Encoding(): seq<byte>
      reads this
    {
      if payload.Some? then payload.value.packet else []
    }

    method ParseHeader() returns (spi: Option<nat>)
      ensures spi == if |data| < ESP_HEADER then None else Some(FromU32(data[0..4]))
    {
      if |data| < ESP_HEADER {
        return None;
      }
      return Some(FromU32(data[0..4]));
    }

    method Encrypt(context: Context, spi: nat) returns (status: Status)
      requires context.Valid() && context.aead.blockSize > 0
      modifies this`data, context`lastSeqno
      ensures context.Valid() && payload == old(payload) && nextHeader == old(nextHeader)
      ensures var numbered := !context.inbound && old(context.lastSeqno) < UINT32_MAX;
              && context.lastSeqno == old(context.lastSeqno) + (if numbered then 1 else 0)
              && (!numbered ==> status == Failed && data == [])
              && (numbered && context.aead.generateIv.None? ==> status == NotFound && data == [])
              && (numbered && context.aead.generateIv.Some? ==>
                    match Sealed(context.aead, spi, context.lastSeqno, Encoding(), nextHeader)
                    case None => status == Failed && data == []
                    case Some(bytes) => status == Success && data == bytes)
    {
      data := [];
      var ok, seqno := context.NextSeqno();
      if !ok {
        return Failed;
      }
      var aead := context.aead;
      if aead.generateIv.None? {
        return NotFound;
      }
      var encoding := Encoding();
      var plainlen := |encoding| + 2;
      var padlen := PadLen(plainlen, aead.blockSize);
      padlen := padlen + PadLen(aead.ivSize + plainlen + padlen, 4);
      var iv := aead.generateIv.value(seqno);
      if iv.None? {
        return Failed;
      }
      var padding := new byte[padlen];
      GeneratePadding(padding);
      var padByte: byte := padlen % 256;
      var plain := encoding + padding[..] + [padByte, nextHeader];
      var aad := U32(spi) + U32(seqno);
      var body := aead.seal(plain, aad, iv.value);
      match body {
        case None =>
          return Failed;
        case Some(bytes) =>
          data := aad + iv.value + bytes;
          return Success;
      }
    }

    method RemovePadding(plain: seq<byte>) returns (ok: bool)
      requires payload == None
      modifies this`payload, this`nextHeader
      ensures ok == Unpad(plain).Some?
      ensures ok ==> payload == Some(Unpad(plain).value.0) && nextHeader == Unpad(plain).value.1
      ensures !ok ==> payload == None && nextHeader == old(nextHeader)
    {
      if |plain| < 2 {
        return false;
      }
      var trailer, padlen := plain[|plain| - 1], plain[|plain| - 2];
      var rest := plain[..|plain| - 2];
      if padlen > |rest| {
        return false;
      }
      var good := CheckPadding(rest[|rest| - padlen..]);
      if !good {
        return false;
      }
      payload := Create(rest[..|rest| - padlen]);
      if payload.None? {
        return false;
      }
      nextHeader := trailer;
      return true;
    }

    method Decrypt(context: Context) returns (status: Status)
      requires context.Valid() && context.aead.blockSize > 0
      modifies this`payload, this`nextHeader, context`lastSeqno, context`seqnoIndex, context`accepted, context.window
      ensures context.Valid()
      ensures status == Outcome(context.aead, context.inbound, old(context.accepted), old(context.lastSeqno), data).status
      ensures status == Success ==>
                payload.Some? && Unpad(Opened(context.aead, data).value.1) == Some((payload.value, nextHeader))
      ensures status != Success ==> payload == None
      ensures var marked := Outcome(context.aead, context.inbound, old(context.accepted), old(context.lastSeqno), data).marked;
              match marked
              case None => context.accepted == old(context.accepted) && context.lastSeqno == old(context.lastSeqno)
              case Some(s) => context.accepted == old(context.accepted) + {s} && context.lastSeqno == Max(s, old(context.lastSeqno))
    {
      hide Unpad, FromU32;
      payload := None;
      var aead := context.aead;
      var header := Split(aead, data);
      if header.None? {
        return ParseError;
      }
      var seqno := header.value.seqno;
      SplitSeqno(aead, data);
      var fresh_ := context.VerifySeqno(seqno);
      if !fresh_ {
        return VerifyError;
      }
      var plain := aead.open(header.value.body, data[..ESP_HEADER], header.value.iv);
      if plain.None? {
        return Failed;
      }
      context.SetAuthenticatedSeqno(seqno);
      var good := RemovePadding(plain.value);
      return if good then Success else ParseError;
    }
  }

  lemma SplitSeqno(a: Aead, data: seq<byte>)
    requires a.blockSize > 0 && Split(a, data).Some?
    ensures Split(a, data).value.seqno <= UINT32_MAX
  {
  }

  /** The number and plaintext of a received packet that splits and opens. */
  function Opened(a: Aead, data: seq<byte>): Option<(nat, seq<byte>)>
    requires a.blockSize > 0
  {
    match Split(a, data)
    case None => None
    case Some(h) =>
      match a.open(h.body, data[..ESP_HEADER], h.iv)
      case None => None
      case Some(plain) => Some((h.seqno, plain))
  }

  datatype Verdict = Verdict(status: Status, marked: Option<nat>)

  /** What decryption answers and which number it marks as received. */
  ghost function Outcome(a: Aead, inbound: bool, accepted: set<nat>, last: nat, data: seq<byte>): Verdict
    requires a.blockSize > 0
  {
    match Split(a, data)
    case None => Verdict(ParseError, None)
    case Some(h) =>
      if !(inbound && Acceptable(accepted, last, h.seqno)) then Verdict(VerifyError, None) else
      match Opened(a, data)
      case None => Verdict(Failed, None)
      case Some((seqno, plain)) =>
        Verdict(if Unpad(plain).Some? then Success else ParseError, Some(seqno))
  }

  /** A number is marked exactly if it was acceptable and its packet's seal held, whatever the packet contains. */
  lemma MarkedIff(a: Aead, inbound: bool, accepted: set<nat>, last: nat, data: seq<byte>)
    requires a.blockSize > 0
    ensures var v := Outcome(a, inbound, accepted, last, data);
            && (v.marked.Some? <==> inbound && Opened(a, data).Some? && Acceptable(accepted, last, Opened(a, data).value.0))
            && (v.marked.Some? ==> v.marked.value == Opened(a, data).value.0)
            && (v.status == Success <==> v.marked.Some? && Unpad(Opened(a, data).value.1).Some?)
  {
    hide Split, Unpad;
  }

  method GeneratePadding(padding: array<byte>)
    modifies padding
    ensures padding[..] == Padding(padding.Length)
  {
    for i := 0 to padding.Length
      invariant forall k :: 0 <= k < i ==> padding[k] == (k + 1) % 256
    {
      padding[i] := (i + 1) % 256;
    }
  }

  method CheckPadding(padding: seq<byte>) returns (ok: bool)
    ensures ok == (padding == Padding(|padding|))
  {
    for i := 0 to |padding|
      invariant padding[..i] == Padding(|padding|)[..i]
    {
      if padding[i] != (i + 1) % 256 {
        return false;
      }
    }
    return true;
  }

  /**
   * Round trip: the packet sealed for an accepted IP packet, opened by a context
   * that has not seen its number, yields the same packet and next header exactly
   * when the stated length of the packet covers its header. Otherwise the number
   * is used up and the packet is dropped.
   */
  lemma RoundTrip(a: Aead, spi: nat, seqno: nat, raw: seq<byte>, nextHeader: byte, accepted: set<nat>, last: nat)
    requires AeadOk(a) && CipherShape(a) && a.generateIv.Some? && spi < U32_LIMIT && seqno < U32_LIMIT
    requires Create(raw).Some? && Acceptable(accepted, last, seqno)
    requires Sealed(a, spi, seqno, Create(raw).value.packet, nextHeader).Some?
    ensures var ip := Create(raw).value;
            var data := Sealed(a, spi, seqno, ip.packet, nextHeader).value;
            && Opened(a, data).Some? && Opened(a, data).value.0 == seqno
            && (Unpad(Opened(a, data).value.1) == Some((ip, nextHeader)) <==> LengthCoversHeader(raw))
            && Outcome(a, true, accepted, last, data) ==
               Verdict(if LengthCoversHeader(raw) then Success else ParseError, Some(seqno))
  {
    hide Create, Unpad, Split, Sealed, LengthCoversHeader, Plaintext;
    var ip := Create(raw).value;
    ReparseIff(raw);
    SplitSealed(a, spi, seqno, ip.packet, nextHeader);
    UnpadPlaintext(a, ip.packet, nextHeader);
  }

  /** A dummy packet (no payload) never reaches the receiver's dummy handling: it is a parse error there. */
  lemma DummyIsParseError(a: Aead, spi: nat, seqno: nat, accepted: set<nat>, last: nat)
    requires AeadOk(a) && CipherShape(a) && a.generateIv.Some? && spi < U32_LIMIT && seqno < U32_LIMIT
    requires Acceptable(accepted, last, seqno) && Sealed(a, spi, seqno, [], IPPROTO_NONE).Some?
    ensures Outcome(a, true, accepted, last, Sealed(a, spi, seqno, [], IPPROTO_NONE).value) == Verdict(ParseError, Some(seqno))
  {
    hide Unpad, Split, Sealed, Plaintext;
    SplitSealed(a, spi, seqno, [], IPPROTO_NONE);
    UnpadPlaintext(a, [], IPPROTO_NONE);
  }

  /** A cipher without IV, check value or blocks that leaves everything as it is. */
  function Plain(): Aead {
    Aead(1, 0, 0, Some(n => Some([])), (plain, aad, iv) => Some(plain), (cipher, aad, iv) => Some(cipher))
  }

  /** A bare 20 byte IPv4 header stating the given length. */
  function BareHeader(length: byte): seq<byte> {
    [0x45, 0, 0, length] + Fill(0, 16)
  }

  /** With that cipher both sides of the round trip occur: a header stating its 20 bytes returns, one stating 0 does not. */
  lemma RoundTripWitness()
    ensures var a := Plain();
            && AeadOk(a) && CipherShape(a) && a.generateIv.Some?
            && (forall length :: length in {0, 20} ==>
                  Create(BareHeader(length)).Some? && Sealed(a, 7, 1, Create(BareHeader(length)).value.packet, 4).Some?)
            && Outcome(a, true, {}, 0, Sealed(a, 7, 1, Create(BareHeader(20)).value.packet, 4).value) == Verdict(Success, Some(1))
            && Outcome(a, true, {}, 0, Sealed(a, 7, 1, Create(BareHeader(0)).value.packet, 4).value) == Verdict(ParseError, Some(1))
  {
    hide Outcome, Unpad, Opened, Plaintext;
    var a := Plain();
    forall length | length in {0, 20}
      ensures Create(BareHeader(length)).Some? && (LengthCoversHeader(BareHeader(length)) <==> length == 20)
      ensures Sealed(a, 7, 1, Create(BareHeader(length)).value.packet, 4).Some?
    {
      var raw := BareHeader(length);
      assert raw[2..4] == [0, length] && raw[9] == 0;
    }
    RoundTrip(a, 7, 1, BareHeader(20), 4, {}, 0);
    RoundTrip(a, 7, 1, BareHeader(0), 4, {}, 0);
  }

  // ----- the packet on the wire

  /** Trailer bytes as section 2.4 of RFC 4303 has them: 1, 2, 3, ..., the number of them, the next header. */
  predicate Trailer(t: seq<byte>, n: nat, nextHeader: byte) {
    && |t| == n + 2 && (forall i :: 0 <= i < n ==> t[i] == (i + 1) % 256)
    && t[n] == n % 256 && t[n + 1] == nextHeader
  }

  /** A packet sent: SPI and number big-endian, the IV, then payload and trailer sealed together with the first eight bytes. */
  lemma SealedLayout(a: Aead, spi: nat, seqno: nat, payload: seq<byte>, nextHeader: byte)
    requires AeadOk(a) && a.generateIv.Some? && spi < U32_LIMIT && seqno < U32_LIMIT
    requires Sealed(a, spi, seqno, payload, nextHeader).Some?
    ensures var data := Sealed(a, spi, seqno, payload, nextHeader).value;
            && |data| >= 8 + a.ivSize && FromU32(data[0..4]) == spi && FromU32(data[4..8]) == seqno
            && a.generateIv.value(seqno) == Some(data[8..8 + a.ivSize])
            && exists n: nat, t: seq<byte> :: Trailer(t, n, nextHeader) &&
                 a.seal(payload + t, data[..8], data[8..8 + a.ivSize]) == Some(data[8 + a.ivSize..])
  {
    hide U32, FromU32, PadTotal;
    var data := Sealed(a, spi, seqno, payload, nextHeader).value;
    var iv := a.generateIv.value(seqno).value;
    var n := PadTotal(a, |payload|);
    var t := Padding(n) + [n % 256, nextHeader];
    assert Plaintext(a, payload, nextHeader) == payload + t;
    var body := a.seal(payload + t, Aad(spi, seqno), iv).value;
    U32RoundTrip(spi);
    U32RoundTrip(seqno);
    assert data == Aad(spi, seqno) + iv + body;
    assert data[0..4] == U32(spi) && data[4..8] == U32(seqno) && data[..8] == Aad(spi, seqno);
    assert data[8..8 + a.ivSize] == iv && data[8 + a.ivSize..] == body;
    assert Trailer(t, n, nextHeader);
  }

  /** A payload is taken exactly if a whole trailer stands behind it and it is an IP packet. */
  lemma UnpadSound(plain: seq<byte>)
    ensures |plain| < 2 ==> Unpad(plain) == None
    ensures |plain| >= 2 ==>
              var n := plain[|plain| - 2] as nat;
              && (Unpad(plain).Some? <==>
                    && n + 2 <= |plain| && Trailer(plain[|plain| - n - 2..], n, plain[|plain| - 1])
                    && Create(plain[..|plain| - n - 2]).Some?)
              && (Unpad(plain).Some? ==>
                    Unpad(plain).value == (Create(plain[..|plain| - n - 2]).value, plain[|plain| - 1]))
  {
    hide Create;
    if |plain| >= 2 && plain[|plain| - 2] + 2 <= |plain| {
      TrailerIs(plain, plain[|plain| - 2]);
    }
  }

  lemma TrailerIs(plain: seq<byte>, n: byte)
    requires n + 2 <= |plain| && n == plain[|plain| - 2]
    ensures var rest := plain[..|plain| - 2];
            && rest[..|rest| - n] == plain[..|plain| - n - 2]
            && (rest[|rest| - n..] == Padding(n) <==> Trailer(plain[|plain| - n - 2..], n, plain[|plain| - 1]))
  {
    var rest, t := plain[..|plain| - 2], plain[|plain| - n - 2..];
    assert t[n] == n && t[n + 1] == plain[|plain| - 1];
    assert t[..n] == rest[|rest| - n..];
    assert forall i :: 0 <= i < n ==> t[i] == t[..n][i];
  }

  /** The cipher opens nothing together with other associated data than it was sealed with. */
  ghost predicate BindsAad(a: Aead) {
    forall plain, aad, iv, aad', iv', body ::
      a.seal(plain, aad, iv) == Some(body) && a.open(body, aad', iv').Some? ==> aad == aad'
  }

  /** A packet whose SPI or number was changed on the way does not open and marks nothing. */
  lemma OtherHeaderRefused(a: Aead, spi: nat, seqno: nat, payload: seq<byte>, nextHeader: byte, head: seq<byte>,
                           accepted: set<nat>, last: nat)
    requires AeadOk(a) && BindsAad(a) && a.generateIv.Some? && spi < U32_LIMIT && seqno < U32_LIMIT
    requires Sealed(a, spi, seqno, payload, nextHeader).Some? && |head| == 8
    requires |Sealed(a, spi, seqno, payload, nextHeader).value| >= 8
    ensures var data := Sealed(a, spi, seqno, payload, nextHeader).value;
            head != data[..8] ==>
              Opened(a, head + data[8..]) == None && Outcome(a, true, accepted, last, head + data[8..]).marked == None
  {
    hide FromU32, Unpad, Plaintext, Acceptable;
    var data := Sealed(a, spi, seqno, payload, nextHeader).value;
    var iv := a.generateIv.value(seqno).value;
    var changed := head + data[8..];
    var body := a.seal(Plaintext(a, payload, nextHeader), Aad(spi, seqno), iv).value;
    assert data == Aad(spi, seqno) + iv + body && data[..8] == Aad(spi, seqno);
    assert changed[..8] == head && changed[8 + a.ivSize..] == body;
  }

  /** What decryption answers to any bytes, check by check: length, number, seal, trailer. */
  lemma OutcomeCases(a: Aead, inbound: bool, accepted: set<nat>, last: nat, data: seq<byte>)
    requires a.blockSize > 0
    ensures var v := Outcome(a, inbound, accepted, last, data);
            if |data| < 8 + a.ivSize + a.icvSize || (|data| - 8 - a.ivSize - a.icvSize) % a.blockSize != 0 then
              v == Verdict(ParseError, None)
            else
              var n := FromU32(data[4..8]);
              if !inbound || !(n > last || (0 < n && last - n < 128 && n !in accepted)) then v == Verdict(VerifyError, None)
              else match a.open(data[8 + a.ivSize..], data[..8], data[8..8 + a.ivSize])
                   case None => v == Verdict(Failed, None)
                   case Some(plain) => v == Verdict(if Unpad(plain).Some? then Success else ParseError, Some(n))
  {
    hide FromU32, Unpad;
  }
}
