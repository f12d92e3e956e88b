/**
 * EAP-SIM/AKA messages (section 8.1 of RFC 4187): the message generated for a
 * list of attributes, and what parsing and verifying make of a message.
 */
module SimakaMessage {
  import opened Bytes
  import opened SimakaAttributes

  const HEADER: nat := 8
  const OUT_BUF: nat := 1024
  const ENCR_BUF: nat := 512
  const IV_SIZE: nat := 16
  const MAC_SIZE: nat := 16

  const AKA_CHALLENGE: byte := 1
  const AKA_AUTHENTICATION_REJECT: byte := 2
  const AKA_SYNCHRONIZATION_FAILURE: byte := 4
  const AKA_IDENTITY: byte := 5
  const SIM_START: byte := 10
  const SIM_CHALLENGE: byte := 11
  const NOTIFICATION: byte := 12
  const REAUTHENTICATION: byte := 13
  const CLIENT_ERROR: byte := 14

  datatype Crypter = Crypter(blockSize: nat, encrypt: (seq<byte>, seq<byte>) -> Option<seq<byte>>,
                             decrypt: (seq<byte>, seq<byte>) -> Option<seq<byte>>)

  datatype Signer = Signer(sign: seq<byte> -> Option<seq<byte>>, verify: (seq<byte>, seq<byte>) -> bool)

  /** The helper has a crypter and a signer once keys are derived. */
  datatype Crypto = Crypto(crypter: Option<Crypter>, signer: Option<Signer>)

  /** Encryption is in place. */
  ghost predicate CrypterOk(c: Crypter) {
    && c.blockSize > 0 && c.blockSize % 4 == 0
    && forall plain, iv :: match c.encrypt(plain, iv) case None => true case Some(cipher) => |cipher| == |plain|
  }

  ghost predicate SignerOk(s: Signer) {
    forall data :: match s.sign(data) case None => true case Some(mac) => |mac| == MAC_SIZE
  }

  /** Decryption undoes encryption and the signature made is accepted. */
  ghost predicate Sound(crypto: Crypto) {
    && (crypto.crypter.Some? ==>
          var c := crypto.crypter.value;
          forall plain, iv :: match c.encrypt(plain, iv)
                              case None => true
                              case Some(cipher) => c.decrypt(cipher, iv) == Some(plain))
    && (crypto.signer.Some? ==>
          var s := crypto.signer.value;
          forall data :: match s.sign(data) case None => true case Some(mac) => s.verify(data, mac))
  }

  predicate AllLegal(attrs: seq<Attr>) {
    forall i :: 0 <= i < |attrs| ==> Legal(attrs[i])
  }

  /** The attributes with a rule that stay in the clear, in order. */
  function Clear(attrs: seq<Attr>): (r: seq<Attr>)
    requires AllLegal(attrs)
    ensures AllLegal(r) && forall i :: 0 <= i < |r| ==> Encodable(r[i].kind) && !Hidden(r[i])
  {
    if attrs == [] then []
    else (if Encodable(attrs[0].kind) && !Hidden(attrs[0]) then [attrs[0]] else []) + Clear(attrs[1..])
  }

  /** The attributes with a rule that are encrypted, in order. */
  function Concealed(attrs: seq<Attr>): (r: seq<Attr>)
    requires AllLegal(attrs)
    ensures AllLegal(r) && forall i :: 0 <= i < |r| ==> Encodable(r[i].kind) && Hidden(r[i])
  {
    if attrs == [] then []
    else (if Encodable(attrs[0].kind) && Hidden(attrs[0]) then [attrs[0]] else []) + Concealed(attrs[1..])
  }

  function EncodedAll(attrs: seq<Attr>): (s: seq<byte>)
    requires AllLegal(attrs)
    ensures |s| % 4 == 0
  {
    if attrs == [] then [] else
    var first, others := Encoded(attrs[0]), EncodedAll(attrs[1..]);
    SumOfQuads(|first|, |others|);
    first + others
  }

  lemma SumOfQuads(a: nat, b: nat)
    requires a % 4 == 0 && b % 4 == 0
    ensures (a + b) % 4 == 0
  {
  }

  function RecoveredAll(attrs: seq<Attr>): seq<Attr> {
    if attrs == [] then [] else [Recovered(attrs[0])] + RecoveredAll(attrs[1..])
  }

  /** Fills up the last block, or adds one. */
  function PadAttr(used: nat, blockSize: nat): (s: seq<byte>)
    requires blockSize > 0 && blockSize % 4 == 0 && blockSize <= ENCR_BUF && used % 4 == 0
    ensures |s| == blockSize - used % blockSize && |s| >= 4 && |s| % 4 == 0
    ensures s[0] == AT_PADDING && (s[1] as nat) * 4 == |s|
  {
    var n := blockSize - used % blockSize;
    BlockRest(used, blockSize);
    var units: byte := n / 4;
    [AT_PADDING, units] + Fill(0, n - 2)
  }

  lemma BlockRest(used: nat, blockSize: nat)
    requires blockSize > 0 && blockSize % 4 == 0 && used % 4 == 0
    ensures (blockSize - used % blockSize) % 4 == 0 && blockSize - used % blockSize >= 4
    ensures (used + (blockSize - used % blockSize)) % blockSize == 0
  {
    var q, b := used / blockSize, blockSize / 4;
    assert used == blockSize * q + used % blockSize;
    assert used % blockSize == 4 * (used / 4 - b * q) by {
      assert blockSize * q == 4 * (b * q);
    }
    assert used + (blockSize - used % blockSize) == (q + 1) * blockSize;
    MultipleHasNoRemainder(q + 1, blockSize);
  }

  /** The concealed bytes padded and encrypted. */
  function Ciphertext(c: Crypter, hidden: seq<byte>, draw: Option<seq<byte>>): (r: Option<seq<byte>>)
    requires CrypterOk(c) && c.blockSize <= ENCR_BUF && |hidden| % 4 == 0
    ensures r.Some? ==> draw.Some? && |r.value| == |hidden| + |PadAttr(|hidden|, c.blockSize)|
    ensures r.Some? ==> |r.value| % 4 == 0 && |r.value| % c.blockSize == 0
  {
    var pad := PadAttr(|hidden|, c.blockSize);
    SumOfQuads(|hidden|, |pad|);
    BlockRest(|hidden|, c.blockSize);
    match draw
    case None => None
    case Some(iv) => c.encrypt(hidden + pad, iv)
  }

  /** AT_IV and AT_ENCR_DATA. */
  function WrapOf(iv: seq<byte>, cipher: seq<byte>): (s: seq<byte>)
    requires |iv| == IV_SIZE && |cipher| % 4 == 0 && |cipher| <= ENCR_BUF
    ensures |s| == 4 + IV_SIZE + 4 + |cipher|
  {
    Framed(Attr(AT_IV, iv)) + Framed(Attr(AT_ENCR_DATA, cipher))
  }

  /** Subtypes whose messages get a MAC. */
  predicate Signed(subtype: byte) {
    subtype in {SIM_CHALLENGE, AKA_CHALLENGE, REAUTHENTICATION}
  }

  function MacOf(subtype: byte, mac: seq<byte>): (s: seq<byte>)
    requires |mac| == MAC_SIZE
    ensures |s| == if Signed(subtype) then 4 + MAC_SIZE else 0
  {
    if Signed(subtype) then Framed(Attr(AT_MAC, mac)) else []
  }

  /** The helper has what generating the message takes. */
  ghost predicate Equipped(crypto: Crypto, attrs: seq<Attr>, subtype: byte)
    requires AllLegal(attrs)
  {
    && (Concealed(attrs) != [] ==> crypto.crypter.Some? && CrypterOk(crypto.crypter.value) && crypto.crypter.value.blockSize <= ENCR_BUF)
    && (Signed(subtype) ==> crypto.signer.Some? && SignerOk(crypto.signer.value))
  }

  /** The message fits the two buffers. */
  ghost predicate Fits(crypto: Crypto, attrs: seq<Attr>, subtype: byte)
    requires AllLegal(attrs) && Equipped(crypto, attrs, subtype)
  {
    var hidden := |EncodedAll(Concealed(attrs))|;
    var padded := if Concealed(attrs) == [] then 0 else hidden + |PadAttr(hidden, crypto.crypter.value.blockSize)|;
    && padded <= ENCR_BUF
    && HEADER + |EncodedAll(Clear(attrs))| + (if padded == 0 then 0 else 4 + IV_SIZE + 4 + padded) +
       (if Signed(subtype) then 4 + MAC_SIZE else 0) <= OUT_BUF
  }

  /** The header with the message length filled in. */
  function WithLength(hdr: seq<byte>, n: nat): seq<byte>
    requires |hdr| == HEADER
  {
    hdr[..2] + U16(n) + hdr[4..]
  }

  /** Everything between the header and the MAC. */
  function Front(attrs: seq<Attr>, crypto: Crypto, draw: Option<seq<byte>>, ghost subtype: byte): Option<seq<byte>>
    requires AllLegal(attrs) && Equipped(crypto, attrs, subtype) && Fits(crypto, attrs, subtype)
    requires draw.Some? ==> |draw.value| == IV_SIZE
  {
    if Concealed(attrs) == [] then Some(EncodedAll(Clear(attrs))) else
    var cipher := Ciphertext(crypto.crypter.value, EncodedAll(Concealed(attrs)), draw);
    if cipher.None? then None else Some(EncodedAll(Clear(attrs)) + WrapOf(draw.value, cipher.value))
  }

  /** The message around a front part, with a given MAC value. */
  function Assembled(hdr: seq<byte>, front: seq<byte>, mac: seq<byte>): (message: seq<byte>)
    requires |hdr| == HEADER && |mac| == MAC_SIZE
    ensures |message| == HEADER + |front| + if Signed(hdr[5]) then 4 + MAC_SIZE else 0
  {
    var tail := front + MacOf(hdr[5], mac);
    WithLength(hdr, HEADER + |tail|) + tail
  }

  const NO_MAC: seq<byte> := Fill(0, MAC_SIZE)

  /** The message generated: the MAC covers the message with a zero MAC, and the caller's data. */
  function Generated(hdr: seq<byte>, attrs: seq<Attr>, crypto: Crypto, draw: Option<seq<byte>>, sigdata: seq<byte>):
      (message: Option<seq<byte>>)
    requires |hdr| == HEADER && AllLegal(attrs) && Equipped(crypto, attrs, hdr[5]) && Fits(crypto, attrs, hdr[5])
    requires draw.Some? ==> |draw.value| == IV_SIZE
    ensures message.Some? ==> |message.value| >= HEADER + if Signed(hdr[5]) then 4 + MAC_SIZE else 0
  {
    match Front(attrs, crypto, draw, hdr[5])
    case None => None
    case Some(front) =>
      if !Signed(hdr[5]) then Some(Assembled(hdr, front, NO_MAC)) else
      match crypto.signer.value.sign(Assembled(hdr, front, NO_MAC) + sigdata)
      case None => None
      case Some(mac) => Some(Assembled(hdr, front, mac))
  }

  /** Where the MAC is: in the message, or in decrypted data that is gone by now. */
  datatype Place = Nowhere | At(offset: nat) | Gone

  /** What parsing found. */
  datatype Found = Found(attrs: seq<Attr>, mac: Place, iv: seq<byte>, encr: seq<byte>, pBit: bool)

  const FRESH: Found := Found([], Nowhere, [], [], true)

  /** Whether parsing went through, and what it had found by then. */
  datatype Reading = Reading(ok: bool, found: Found)

  /** Special attributes are set aside; the others are kept. */
  function Keep(f: Found, a: Attr, at: nat, encrypted: bool): Reading
    requires a.kind == AT_NOTIFICATION ==> |a.data| > 0
  {
    if a.kind == AT_MAC then Reading(true, f.(mac := if encrypted then Gone else At(at + 4)))
    else if a.kind == AT_IV then Reading(true, f.(iv := a.data))
    else if a.kind == AT_ENCR_DATA then Reading(true, f.(encr := a.data))
    else if a.kind == AT_PADDING then Reading(true, f)
    else if a.kind == AT_NOTIFICATION && !f.pBit && !encrypted then Reading(false, f)
    else Reading(true, f.(attrs := f.attrs + [a],
                          pBit := if a.kind == AT_NOTIFICATION && f.pBit then Phase(a.data) else f.pBit))
  }

  /** All attributes of an input that starts at a position of the message. */
  function ReadAll(input: seq<byte>, at: nat, f: Found, encrypted: bool): Reading
    decreases |input|
  {
    if input == [] then Reading(true, f) else
    match ReadOne(input, encrypted)
    case None => Reading(false, f)
    case Some((a, n)) =>
      var next := Keep(f, a, at, encrypted);
      if !next.ok then next else ReadAll(Skip(input, n), at + n, next.found, encrypted)
  }

  /** Reads the encrypted attributes if there are any and the keys are there. */
  function Decrypted(crypto: Crypto, f: Found): Reading
    requires crypto.crypter.Some? ==> crypto.crypter.value.blockSize > 0
  {
    if crypto.crypter.None? || f.iv == [] || f.encr == [] then Reading(true, f) else
    var c := crypto.crypter.value;
    if |f.encr| % c.blockSize != 0 then Reading(false, f) else
    match c.decrypt(f.encr, f.iv)
    case None => Reading(false, f)
    case Some(plain) => ReadAll(plain, 0, f, true)
  }

  /** Parsing again, once attributes were found, only decrypts. */
  function Parsed(message: seq<byte>, crypto: Crypto, f: Found): Reading
    requires |message| >= HEADER && (crypto.crypter.Some? ==> crypto.crypter.value.blockSize > 0)
  {
    if f.attrs != [] then Decrypted(crypto, f) else
    var r := ReadAll(message[HEADER..], HEADER, f, false);
    if !r.ok then r else Decrypted(crypto, r.found)
  }

  /** What the subtype asks of the MAC: Some(b) settles the matter, None leaves it to the signature. */
  function MacRule(subtype: byte, pBit: bool, available: bool): Option<bool> {
    if subtype in {SIM_START, CLIENT_ERROR, AKA_AUTHENTICATION_REJECT, AKA_SYNCHRONIZATION_FAILURE, AKA_IDENTITY} then Some(true)
    else if Signed(subtype) then (if available then None else Some(false))
    else if subtype == NOTIFICATION then (if pBit then Some(true) else if available then None else Some(false))
    else Some(false)
  }

  /** The message with the MAC value zeroed. */
  function ZeroMac(message: seq<byte>, at: nat): seq<byte>
    requires at + MAC_SIZE <= |message|
  {
    message[..at] + Fill(0, MAC_SIZE) + message[at + MAC_SIZE..]
  }

  function Verified(message: seq<byte>, crypto: Crypto, f: Found, sigdata: seq<byte>): bool
    requires |message| >= HEADER && f.mac != Gone && (f.mac.At? ==> f.mac.offset + MAC_SIZE <= |message|)
  {
    match MacRule(message[5], f.pBit, f.mac.At? && crypto.signer.Some?)
    case Some(b) => b
    case None =>
      var at := f.mac.offset;
      crypto.signer.value.verify(ZeroMac(message, at) + sigdata, message[at..at + MAC_SIZE])
  }
}
