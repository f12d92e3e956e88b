/**
 * Parsing and verifying an EAP-SIM/AKA message undoes generating it, and what
 * acceptance of any message means.
 */
module SimakaRoundTrip {
  import opened Bytes
  import opened SimakaAttributes
  import opened SimakaMessage

  /** No notification sent after authentication. */
  predicate NoLateNotice(attrs: seq<Attr>)
    requires AllLegal(attrs)
  {
    forall i :: 0 <= i < |attrs| && attrs[i].kind == AT_NOTIFICATION ==> Phase(attrs[i].data)
  }

  /** Reading continues behind an attribute written. */
  lemma ReadStep(a: Attr, rest: seq<byte>, at: nat, f: Found, encrypted: bool)
    requires Sized(a) && ShapeOf(a.kind) != Other && (EncryptedOnly(a.kind) ==> encrypted)
    requires Keep(f, Recovered(a), at, encrypted).ok
    ensures ReadAll(Framed(a) + rest, at, f, encrypted)
         == ReadAll(rest, at + |Framed(a)|, Keep(f, Recovered(a), at, encrypted).found, encrypted)
  {
    hide ReadOne, Framed, Keep, Recovered;
    ReadBack(a, rest, encrypted);
    var input := Framed(a) + rest;
    assert Skip(input, |Framed(a)|) == rest;
  }

  ghost predicate Readable(a: Attr, encrypted: bool) {
    Sized(a) && Encodable(a.kind) && (EncryptedOnly(a.kind) ==> encrypted) &&
    (a.kind == AT_NOTIFICATION && !encrypted ==> Phase(a.data))
  }

  /** What one ordinary attribute adds. */
  lemma KeepOrdinary(a: Attr, at: nat, f: Found, encrypted: bool)
    requires Readable(a, encrypted) && (encrypted || f.pBit)
    ensures Recovered(a).kind == a.kind && (a.kind == AT_NOTIFICATION ==> |Recovered(a).data| > 0)
    ensures Keep(f, Recovered(a), at, encrypted)
         == Reading(true, f.(attrs := f.attrs + [Recovered(a)],
                             pBit := f.pBit && (a.kind == AT_NOTIFICATION ==> Phase(a.data))))
  {
    RecoveredIff(a);
  }

  /** Reading back a list of ordinary attributes. */
  lemma {:induction false} ReadMany(attrs: seq<Attr>, rest: seq<byte>, at: nat, f: Found, encrypted: bool)
    requires AllLegal(attrs) && (forall i :: 0 <= i < |attrs| ==> Readable(attrs[i], encrypted))
    requires encrypted || f.pBit
    ensures ReadAll(EncodedAll(attrs) + rest, at, f, encrypted)
         == ReadAll(rest, at + |EncodedAll(attrs)|,
                    f.(attrs := f.attrs + RecoveredAll(attrs), pBit := f.pBit && NoLateNotice(attrs)), encrypted)
    decreases |attrs|
  {
    hide ReadAll, Keep, Framed, Recovered, Phase, EncodedAll, NoLateNotice, RecoveredAll;
    if attrs == [] {
      NothingRecovered();
      assert EncodedAll(attrs) + rest == rest;
      assert f.attrs + [] == f.attrs;
    } else {
      var a, others := attrs[0], attrs[1..];
      assert Readable(a, encrypted);
      FirstOf(attrs);
      KeepOrdinary(a, at, f, encrypted);
      var next := Keep(f, Recovered(a), at, encrypted).found;
      assert EncodedAll(attrs) + rest == Framed(a) + (EncodedAll(others) + rest);
      ReadStep(a, EncodedAll(others) + rest, at, f, encrypted);
      ReadMany(others, rest, at + |Framed(a)|, next, encrypted);
      assert next.attrs + RecoveredAll(others) == f.attrs + RecoveredAll(attrs);
    }
  }

  lemma NothingRecovered()
    ensures RecoveredAll([]) == [] && NoLateNotice([]) && EncodedAll([]) == []
  {
  }

  lemma FirstOf(attrs: seq<Attr>)
    requires AllLegal(attrs) && attrs != [] && Encodable(attrs[0].kind)
    ensures EncodedAll(attrs) == Framed(attrs[0]) + EncodedAll(attrs[1..])
    ensures RecoveredAll(attrs) == [Recovered(attrs[0])] + RecoveredAll(attrs[1..])
    ensures NoLateNotice(attrs) <==>
            (attrs[0].kind == AT_NOTIFICATION ==> Phase(attrs[0].data)) && NoLateNotice(attrs[1..])
  {
    hide Framed, Recovered, Phase;
    assert forall i :: 0 < i < |attrs| ==> attrs[i] == attrs[1..][i - 1];
  }

  /** Reading the MAC attribute. */
  lemma ReadMac(subtype: byte, mac: seq<byte>, at: nat, f: Found)
    requires |mac| == MAC_SIZE
    ensures ReadAll(MacOf(subtype, mac), at, f, false)
         == Reading(true, f.(mac := if Signed(subtype) then At(at + 4) else f.mac))
  {
    hide Framed;
    if Signed(subtype) {
      var a := Attr(AT_MAC, mac);
      assert Framed(a) + [] == Framed(a);
      ReadStep(a, [], at, f, false);
    }
  }

  /** Reading the IV and the encrypted data. */
  lemma ReadWrap(iv: seq<byte>, cipher: seq<byte>, tail: seq<byte>, at: nat, f: Found)
    requires |iv| == IV_SIZE && |cipher| % 4 == 0 && |cipher| <= ENCR_BUF
    ensures ReadAll(WrapOf(iv, cipher) + tail, at, f, false)
         == ReadAll(tail, at + |WrapOf(iv, cipher)|, f.(iv := iv, encr := cipher), false)
  {
    hide Framed, ReadAll;
    var a, b := Attr(AT_IV, iv), Attr(AT_ENCR_DATA, cipher);
    assert WrapOf(iv, cipher) + tail == Framed(a) + (Framed(b) + tail);
    ReadStep(a, Framed(b) + tail, at, f, false);
    ReadStep(b, tail, at + |Framed(a)|, f.(iv := iv), false);
  }

  /** What reading a generated message finds before it decrypts. */
  function ClearText(attrs: seq<Attr>, crypto: Crypto, draw: Option<seq<byte>>, ghost subtype: byte, at: Place, f: Found): Found
    requires AllLegal(attrs) && Equipped(crypto, attrs, subtype) && Fits(crypto, attrs, subtype)
    requires draw.Some? ==> |draw.value| == IV_SIZE
    requires Front(attrs, crypto, draw, subtype).Some?
  {
    var wrapped := Concealed(attrs) != [];
    Found(f.attrs + RecoveredAll(Clear(attrs)), at, if wrapped then draw.value else f.iv,
          if wrapped then Ciphertext(crypto.crypter.value, EncodedAll(Concealed(attrs)), draw).value else f.encr, f.pBit)
  }

  lemma ReadFront(attrs: seq<Attr>, crypto: Crypto, draw: Option<seq<byte>>, subtype: byte, mac: seq<byte>, f: Found)
    requires AllLegal(attrs) && Equipped(crypto, attrs, subtype) && Fits(crypto, attrs, subtype)
    requires (draw.Some? ==> |draw.value| == IV_SIZE) && |mac| == MAC_SIZE && f.pBit
    requires Front(attrs, crypto, draw, subtype).Some?
    ensures ReadAll(Front(attrs, crypto, draw, subtype).value + MacOf(subtype, mac), HEADER, f, false)
         == Reading(true, ClearText(attrs, crypto, draw, subtype,
                                    if Signed(subtype) then At(HEADER + |Front(attrs, crypto, draw, subtype).value| + 4) else f.mac,
                                    f))
  {
    hide ReadAll, EncodedAll, WrapOf, MacOf, RecoveredAll, Ciphertext, PadAttr, Signed;
    var clear, concealed := Clear(attrs), Concealed(attrs);
    var front := Front(attrs, crypto, draw, subtype).value;
    var f' := f.(attrs := f.attrs + RecoveredAll(clear));
    assert NoLateNotice(clear);
    var at := HEADER + |EncodedAll(clear)|;
    if concealed == [] {
      ReadMany(clear, MacOf(subtype, mac), HEADER, f, false);
      ReadMac(subtype, mac, at, f');
    } else {
      var iv, cipher := draw.value, Ciphertext(crypto.crypter.value, EncodedAll(concealed), draw).value;
      var tail := WrapOf(iv, cipher) + MacOf(subtype, mac);
      assert front + MacOf(subtype, mac) == EncodedAll(clear) + tail;
      ReadMany(clear, tail, HEADER, f, false);
      ReadWrap(iv, cipher, MacOf(subtype, mac), at, f');
      ReadMac(subtype, mac, at + |WrapOf(iv, cipher)|, f'.(iv := iv, encr := cipher));
    }
  }

  lemma ConcealedReadable(attrs: seq<Attr>)
    requires AllLegal(attrs)
    ensures forall i :: 0 <= i < |Concealed(attrs)| ==> Readable(Concealed(attrs)[i], true)
  {
    hide Concealed;
  }

  /** Reading the plaintext of AT_ENCR_DATA: padding is dropped. */
  lemma ReadPlain(attrs: seq<Attr>, blockSize: nat, f: Found)
    requires AllLegal(attrs) && blockSize > 0 && blockSize % 4 == 0 && blockSize <= ENCR_BUF
    ensures ReadAll(EncodedAll(Concealed(attrs)) + PadAttr(|EncodedAll(Concealed(attrs))|, blockSize), 0, f, true)
         == Reading(true, f.(attrs := f.attrs + RecoveredAll(Concealed(attrs)),
                             pBit := f.pBit && NoLateNotice(Concealed(attrs))))
  {
    hide *;
    ConcealedReadable(attrs);
    var concealed := Concealed(attrs);
    var hidden := EncodedAll(concealed);
    var f' := f.(attrs := f.attrs + RecoveredAll(concealed), pBit := f.pBit && NoLateNotice(concealed));
    ReadMany(concealed, PadAttr(|hidden|, blockSize), 0, f, true);
    ReadPadding(PadAttr(|hidden|, blockSize), |hidden|, f');
  }

  lemma ReadPadding(pad: seq<byte>, at: nat, f: Found)
    requires |pad| >= 4 && pad[0] == AT_PADDING && (pad[1] as nat) * 4 == |pad|
    ensures ReadAll(pad, at, f, true) == Reading(true, f)
  {
    assert ReadOne(pad, true) == Some((Attr(AT_PADDING, pad[2..|pad|]), |pad|));
    assert Skip(pad, |pad|) == [];
  }

  /** What parsing a generated message finds, from a state without attributes. */
  ghost predicate RoundTrips(attrs: seq<Attr>, r: Reading, mac: Place)
    requires AllLegal(attrs)
  {
    && r.ok && r.found.mac == mac
    && r.found.attrs == RecoveredAll(Clear(attrs)) + RecoveredAll(Concealed(attrs))
    && r.found.pBit == NoLateNotice(Concealed(attrs))
  }

  /** Decrypting what reading found. */
  lemma DecryptClearText(attrs: seq<Attr>, crypto: Crypto, draw: Option<seq<byte>>, subtype: byte, at: Place, f: Found)
    requires AllLegal(attrs) && Equipped(crypto, attrs, subtype) && Fits(crypto, attrs, subtype) && Sound(crypto)
    requires (draw.Some? ==> |draw.value| == IV_SIZE) && Front(attrs, crypto, draw, subtype).Some?
    requires crypto.crypter.Some? ==> crypto.crypter.value.blockSize > 0
    requires f.attrs == [] && f.pBit && (Concealed(attrs) == [] ==> f.iv == [])
    ensures RoundTrips(attrs, Decrypted(crypto, ClearText(attrs, crypto, draw, subtype, at, f)), at)
  {
    hide ReadAll, EncodedAll, PadAttr, Clear, Concealed, RecoveredAll, Fits, Sound, CrypterOk, NoLateNotice, Front,
         AllLegal, Framed;
    var f' := ClearText(attrs, crypto, draw, subtype, at, f);
    assert f'.attrs == RecoveredAll(Clear(attrs));
    if Concealed(attrs) != [] {
      var c := crypto.crypter.value;
      var hidden := EncodedAll(Concealed(attrs));
      CrypterBlocks(c);
      var plain := hidden + PadAttr(|hidden|, c.blockSize);
      FrontCipher(attrs, crypto, draw, subtype);
      assert c.encrypt(plain, f'.iv) == Some(f'.encr);
      DecryptsBack(crypto, plain, f'.iv, f'.encr);
      ReadPlain(attrs, c.blockSize, f');
    } else {
      NothingRecovered();
      assert RecoveredAll(Clear(attrs)) + [] == RecoveredAll(Clear(attrs));
    }
  }

  lemma FrontCipher(attrs: seq<Attr>, crypto: Crypto, draw: Option<seq<byte>>, subtype: byte)
    requires AllLegal(attrs) && Equipped(crypto, attrs, subtype) && Fits(crypto, attrs, subtype)
    requires (draw.Some? ==> |draw.value| == IV_SIZE) && Front(attrs, crypto, draw, subtype).Some?
    requires Concealed(attrs) != []
    ensures draw.Some?
    ensures var c := crypto.crypter.value;
            var hidden := EncodedAll(Concealed(attrs));
            && Ciphertext(c, hidden, draw).Some?
            && c.encrypt(hidden + PadAttr(|hidden|, c.blockSize), draw.value) == Ciphertext(c, hidden, draw)
  {
    hide EncodedAll, PadAttr, Concealed, Clear, AllLegal;
  }

  lemma DecryptsBack(crypto: Crypto, plain: seq<byte>, iv: seq<byte>, cipher: seq<byte>)
    requires Sound(crypto) && crypto.crypter.Some? && crypto.crypter.value.encrypt(plain, iv) == Some(cipher)
    ensures crypto.crypter.value.decrypt(cipher, iv) == Some(plain)
  {
  }

  lemma CrypterBlocks(c: Crypter)
    requires CrypterOk(c)
    ensures c.blockSize > 0 && c.blockSize % 4 == 0
  {
  }

  lemma AssembledParts(hdr: seq<byte>, front: seq<byte>, mac: seq<byte>)
    requires |hdr| == HEADER && |mac| == MAC_SIZE
    ensures var message := Assembled(hdr, front, mac);
            && message[HEADER..] == front + MacOf(hdr[5], mac) && message[5] == hdr[5]
            && message[2..4] == U16(|message|)
            && (Signed(hdr[5]) ==>
                  && message[|message| - MAC_SIZE..] == mac
                  && ZeroMac(message, |message| - MAC_SIZE) == Assembled(hdr, front, NO_MAC))
  {
    hide U16, MacOf, ZeroMac, Signed;
    var tail := front + MacOf(hdr[5], mac);
    if Signed(hdr[5]) {
      MacAtEnd(WithLength(hdr, HEADER + |tail|) + front, hdr[5], mac);
      var head := WithLength(hdr, HEADER + |tail|);
      assert head + (front + MacOf(hdr[5], mac)) == (head + front) + MacOf(hdr[5], mac);
      assert head + (front + MacOf(hdr[5], NO_MAC)) == (head + front) + MacOf(hdr[5], NO_MAC);
    }
  }

  lemma MacAtEnd(before: seq<byte>, subtype: byte, mac: seq<byte>)
    requires |mac| == MAC_SIZE && Signed(subtype)
    ensures var message := before + MacOf(subtype, mac);
            && message[|message| - MAC_SIZE..] == mac
            && ZeroMac(message, |message| - MAC_SIZE) == before + MacOf(subtype, NO_MAC)
  {
    assert MacOf(subtype, mac) == [AT_MAC, 5, 0, 0] + mac;
    assert MacOf(subtype, NO_MAC) == [AT_MAC, 5, 0, 0] + NO_MAC;
    hide MacOf, Framed;
    var message := before + MacOf(subtype, mac);
    var at := |message| - MAC_SIZE;
    assert message[..at] == before + [AT_MAC, 5, 0, 0];
    assert message[at + MAC_SIZE..] == [];
  }

  /** Parsed afresh, the message gives the attributes back, and it verifies exactly when it should. */
  ghost predicate Survives(message: seq<byte>, subtype: byte, attrs: seq<Attr>, crypto: Crypto, sigdata: seq<byte>)
    requires AllLegal(attrs) && |message| >= HEADER + if Signed(subtype) then 4 + MAC_SIZE else 0
    requires crypto.crypter.Some? ==> crypto.crypter.value.blockSize > 0
  {
    var r := Parsed(message, crypto, FRESH);
    && message[2..4] == U16(|message|)
    && RoundTrips(attrs, r, if Signed(subtype) then At(|message| - MAC_SIZE) else Nowhere)
    && (Verified(message, crypto, r.found, sigdata) <==> Accepted(subtype, attrs))
  }

  /**
   * The codec round trip: parsing a generated message returns the attributes it
   * has rules for, the clear ones in order before the encrypted ones, without
   * padding, IV and MAC; and verification accepts it for exactly the subtypes
   * that need no MAC or get one.
   */
  lemma ParseGenerated(hdr: seq<byte>, attrs: seq<Attr>, crypto: Crypto, draw: Option<seq<byte>>, sigdata: seq<byte>)
    requires |hdr| == HEADER && AllLegal(attrs) && Equipped(crypto, attrs, hdr[5]) && Fits(crypto, attrs, hdr[5])
    requires (draw.Some? ==> |draw.value| == IV_SIZE) && Sound(crypto)
    requires crypto.crypter.Some? ==> crypto.crypter.value.blockSize > 0
    requires Generated(hdr, attrs, crypto, draw, sigdata).Some?
    ensures Survives(Generated(hdr, attrs, crypto, draw, sigdata).value, hdr[5], attrs, crypto, sigdata)
  {
    hide Front, Fits, Equipped, Assembled, ReadAll, Decrypted, RoundTrips, Sound, U16, MacOf, ClearText, ZeroMac;
    var front := Front(attrs, crypto, draw, hdr[5]).value;
    var message := Generated(hdr, attrs, crypto, draw, sigdata).value;
    var mac := MacValue(hdr, attrs, crypto, draw, sigdata);
    AssembledParts(hdr, front, mac);
    ReadFront(attrs, crypto, draw, hdr[5], mac, FRESH);
    var place := if Signed(hdr[5]) then At(|message| - MAC_SIZE) else Nowhere;
    var f := ClearText(attrs, crypto, draw, hdr[5], place, FRESH);
    DecryptClearText(attrs, crypto, draw, hdr[5], place, FRESH);
    assert Parsed(message, crypto, FRESH) == Decrypted(crypto, f);
    VerifyGenerated(hdr, attrs, crypto, draw, sigdata, Decrypted(crypto, f));
  }

  /** The subtype is one that needs no MAC or gets one: a notification only with the phase bit. */
  predicate Accepted(subtype: byte, attrs: seq<Attr>)
    requires AllLegal(attrs)
  {
    || subtype in {SIM_START, CLIENT_ERROR, AKA_AUTHENTICATION_REJECT, AKA_SYNCHRONIZATION_FAILURE, AKA_IDENTITY}
    || Signed(subtype)
    || (subtype == NOTIFICATION && NoLateNotice(Concealed(attrs)))
  }

  /** The MAC value in the message, if it has one. */
  function MacValue(hdr: seq<byte>, attrs: seq<Attr>, crypto: Crypto, draw: Option<seq<byte>>, sigdata: seq<byte>):
      (mac: seq<byte>)
    requires |hdr| == HEADER && AllLegal(attrs) && Equipped(crypto, attrs, hdr[5]) && Fits(crypto, attrs, hdr[5])
    requires (draw.Some? ==> |draw.value| == IV_SIZE)
    requires Generated(hdr, attrs, crypto, draw, sigdata).Some?
    ensures |mac| == MAC_SIZE
    ensures Generated(hdr, attrs, crypto, draw, sigdata).value == Assembled(hdr, Front(attrs, crypto, draw, hdr[5]).value, mac)
  {
    if !Signed(hdr[5]) then NO_MAC
    else crypto.signer.value.sign(Assembled(hdr, Front(attrs, crypto, draw, hdr[5]).value, NO_MAC) + sigdata).value
  }

  lemma VerifyGenerated(hdr: seq<byte>, attrs: seq<Attr>, crypto: Crypto, draw: Option<seq<byte>>, sigdata: seq<byte>, r: Reading)
    requires |hdr| == HEADER && AllLegal(attrs) && Equipped(crypto, attrs, hdr[5]) && Fits(crypto, attrs, hdr[5])
    requires (draw.Some? ==> |draw.value| == IV_SIZE) && Sound(crypto)
    requires Generated(hdr, attrs, crypto, draw, sigdata).Some?
    requires RoundTrips(attrs, r, if Signed(hdr[5]) then At(|Generated(hdr, attrs, crypto, draw, sigdata).value| - MAC_SIZE) else Nowhere)
    ensures Verified(Generated(hdr, attrs, crypto, draw, sigdata).value, crypto, r.found, sigdata) <==> Accepted(hdr[5], attrs)
  {
    hide Front, Fits, Assembled, Concealed, Clear, NoLateNotice, RecoveredAll, ZeroMac, U16, CrypterOk;
    var front := Front(attrs, crypto, draw, hdr[5]).value;
    var mac := MacValue(hdr, attrs, crypto, draw, sigdata);
    AssembledParts(hdr, front, mac);
    if Signed(hdr[5]) {
      var message := Assembled(hdr, front, mac);
      var at := |message| - MAC_SIZE;
      assert message[at..at + MAC_SIZE] == message[at..];
      SignatureAccepted(crypto, Assembled(hdr, front, NO_MAC) + sigdata, mac);
    }
  }

  lemma SignatureAccepted(crypto: Crypto, data: seq<byte>, mac: seq<byte>)
    requires Sound(crypto) && crypto.signer.Some? && crypto.signer.value.sign(data) == Some(mac)
    ensures crypto.signer.value.verify(data, mac)
  {
  }

  /** Parsing before the keys are there, and again when they are, finds the same. */
  lemma ParseInTwoSteps(hdr: seq<byte>, attrs: seq<Attr>, crypto: Crypto, draw: Option<seq<byte>>, sigdata: seq<byte>)
    requires |hdr| == HEADER && AllLegal(attrs) && Equipped(crypto, attrs, hdr[5]) && Fits(crypto, attrs, hdr[5])
    requires (draw.Some? ==> |draw.value| == IV_SIZE) && Sound(crypto)
    requires crypto.crypter.Some? ==> crypto.crypter.value.blockSize > 0
    requires Generated(hdr, attrs, crypto, draw, sigdata).Some?
    ensures var message := Generated(hdr, attrs, crypto, draw, sigdata).value;
            var early := Parsed(message, Crypto(None, None), FRESH);
            && early.ok && early.found.attrs == RecoveredAll(Clear(attrs))
            && Parsed(message, crypto, early.found) == Parsed(message, crypto, FRESH)
  {
    hide Front, Fits, Equipped, Assembled, ReadAll, Sound, U16, MacOf;
    var front := Front(attrs, crypto, draw, hdr[5]).value;
    var message := Generated(hdr, attrs, crypto, draw, sigdata).value;
    var mac := MacValue(hdr, attrs, crypto, draw, sigdata);
    AssembledParts(hdr, front, mac);
    ReadFront(attrs, crypto, draw, hdr[5], mac, FRESH);
    var early := Parsed(message, Crypto(None, None), FRESH).found;
    ReadFront(attrs, crypto, draw, hdr[5], mac, early);
    assert [] + RecoveredAll(Clear(attrs)) == RecoveredAll(Clear(attrs));
  }

  /** The attributes the generator has a rule for. */
  function Ruled(attrs: seq<Attr>): seq<Attr> {
    if attrs == [] then [] else (if Encodable(attrs[0].kind) then [attrs[0]] else []) + Ruled(attrs[1..])
  }

  /** Nothing with a rule is lost or doubled by telling clear and encrypted attributes apart. */
  lemma {:induction false} NothingLost(attrs: seq<Attr>)
    requires AllLegal(attrs)
    ensures multiset(Clear(attrs)) + multiset(Concealed(attrs)) == multiset(Ruled(attrs))
  {
    hide Legal, Hidden, Encodable;
    if attrs != [] {
      NothingLost(attrs[1..]);
    }
  }

  /** The values come back unaltered exactly when no AT_RES has a length of 32 or more modulo 256. */
  lemma {:induction false} RecoveredAllIff(attrs: seq<Attr>)
    requires AllLegal(attrs) && forall i :: 0 <= i < |attrs| ==> Encodable(attrs[i].kind)
    ensures |RecoveredAll(attrs)| == |attrs|
    ensures RecoveredAll(attrs) == attrs <==>
            forall i :: 0 <= i < |attrs| && attrs[i].kind == AT_RES ==> |attrs[i].data| % 256 < 32
  {
    hide Recovered, Sized;
    if attrs != [] {
      assert Legal(attrs[0]);
      RecoveredIff(attrs[0]);
      RecoveredAllIff(attrs[1..]);
      assert RecoveredAll(attrs)[1..] == RecoveredAll(attrs[1..]);
      assert forall i :: 0 < i < |attrs| ==> attrs[i] == attrs[1..][i - 1];
      assert RecoveredAll(attrs) == attrs <==> Recovered(attrs[0]) == attrs[0] && RecoveredAll(attrs[1..]) == attrs[1..];
    }
  }

  /** Reading the clear part of a message, which starts at a position, comes to an AT_MAC at position k. */
  ghost predicate ReadsMac(input: seq<byte>, at: nat, k: nat)
    decreases |input|
  {
    input != [] &&
    match ReadOne(input, false)
    case None => false
    case Some((a, n)) => (k == at && a.kind == AT_MAC) || ReadsMac(Skip(input, n), at + n, k)
  }

  ghost predicate SomeMac(input: seq<byte>, at: nat) {
    exists k: nat :: ReadsMac(input, at, k)
  }

  ghost predicate LastMac(input: seq<byte>, at: nat, k: nat) {
    ReadsMac(input, at, k) && forall j: nat :: ReadsMac(input, at, j) ==> j <= k
  }

  lemma {:induction false} ReadsMacInside(input: seq<byte>, at: nat, k: nat)
    requires ReadsMac(input, at, k)
    ensures at <= k && k - at + 4 + MAC_SIZE <= |input| && input[k - at] == AT_MAC
    decreases |input|
  {
    var (a, n) := ReadOne(input, false).value;
    if !(k == at && a.kind == AT_MAC) {
      ReadsMacInside(Skip(input, n), at + n, k);
    }
  }

  /** The first attribute, or one behind it. */
  lemma LastMacFirst(input: seq<byte>, at: nat, kind: byte, rest: seq<byte>, next: nat)
    requires input != [] && ReadOne(input, false).Some? && kind == ReadOne(input, false).value.0.kind
    requires rest == Skip(input, ReadOne(input, false).value.1) && next == at + ReadOne(input, false).value.1
    ensures SomeMac(input, at) <==> kind == AT_MAC || SomeMac(rest, next)
    ensures forall k: nat :: LastMac(rest, next, k) ==> LastMac(input, at, k)
    ensures kind == AT_MAC && !SomeMac(rest, next) ==> LastMac(input, at, at)
  {
    hide ReadOne, ReadsMac;
    forall k: nat
      ensures ReadsMac(input, at, k) <==> (k == at && kind == AT_MAC) || ReadsMac(rest, next, k)
      ensures ReadsMac(rest, next, k) ==> k > at
    {
      ReadsMacFirst(input, at, k);
      if ReadsMac(rest, next, k) {
        ReadsMacInside(rest, next, k);
      }
    }
    assert kind == AT_MAC ==> ReadsMac(input, at, at);
    forall k: nat | ReadsMac(rest, next, k)
      ensures SomeMac(input, at) && (LastMac(rest, next, k) ==> LastMac(input, at, k))
    {
      assert ReadsMac(input, at, k);
    }
  }

  lemma ReadsMacFirst(input: seq<byte>, at: nat, k: nat)
    requires input != [] && ReadOne(input, false).Some?
    ensures var (a, n) := ReadOne(input, false).value;
            ReadsMac(input, at, k) <==> (k == at && a.kind == AT_MAC) || ReadsMac(Skip(input, n), at + n, k)
  {
  }

  /** Reading remembers the value of the last AT_MAC it comes to, and nothing else as one. */
  lemma {:induction false} ReadingRemembers(input: seq<byte>, at: nat, f: Found)
    requires ReadAll(input, at, f, false).ok
    ensures var mac := ReadAll(input, at, f, false).found.mac;
            if SomeMac(input, at) then mac.At? && mac.offset >= 4 && LastMac(input, at, mac.offset - 4) else mac == f.mac
    decreases |input|
  {
    hide ReadOne, LastMac, SomeMac;
    if input != [] {
      var (a, n) := ReadOne(input, false).value;
      LastMacFirst(input, at, a.kind, Skip(input, n), at + n);
      ReadingRemembers(Skip(input, n), at + n, Keep(f, a, at, false).found);
    } else {
      assert !SomeMac(input, at) by { NothingRead(at); }
    }
  }

  lemma NothingRead(at: nat)
    ensures !SomeMac([], at)
  {
  }

  /** Decrypted attributes leave the MAC alone, or it is gone. */
  lemma {:induction false} HiddenMacGone(input: seq<byte>, at: nat, f: Found)
    ensures ReadAll(input, at, f, true).found.mac in {f.mac, Gone}
    decreases |input|
  {
    if input != [] && ReadOne(input, true).Some? {
      var (a, n) := ReadOne(input, true).value;
      if Keep(f, a, at, true).ok {
        HiddenMacGone(Skip(input, n), at + n, Keep(f, a, at, true).found);
      }
    }
  }

  /** Position k has the last AT_MAC of the message, and its value is right for the message with that value zeroed. */
  ghost predicate RightMac(message: seq<byte>, signer: Signer, sigdata: seq<byte>, k: nat)
    requires |message| >= HEADER
  {
    && LastMac(message[HEADER..], HEADER, k) && k + 4 + MAC_SIZE <= |message|
    && signer.verify(ZeroMac(message, k + 4) + sigdata, message[k + 4..k + 4 + MAC_SIZE])
  }

  /** Subtypes that pass without a MAC. */
  predicate PassesUnsigned(subtype: byte, pBit: bool) {
    subtype in {2, 4, 5, 10, 14} || (subtype == 12 && pBit)
  }

  /**
   * What acceptance of any received bytes that parse means, and when it comes:
   * the subtype needs no MAC, or the last AT_MAC of the message is right for the
   * message with its value zeroed, in a challenge, reauthentication or
   * notification.
   */
  lemma VerifiedIff(message: seq<byte>, crypto: Crypto, sigdata: seq<byte>)
    requires |message| >= HEADER && (crypto.crypter.Some? ==> crypto.crypter.value.blockSize > 0)
    requires Parsed(message, crypto, FRESH).ok && Parsed(message, crypto, FRESH).found.mac != Gone
    ensures var f := Parsed(message, crypto, FRESH).found;
            && (f.mac.At? ==> f.mac.offset + MAC_SIZE <= |message|)
            && (Verified(message, crypto, f, sigdata) <==>
                  || PassesUnsigned(message[5], f.pBit)
                  || (&& message[5] in {1, 11, 12, 13} && crypto.signer.Some?
                      && exists k: nat :: RightMac(message, crypto.signer.value, sigdata, k)))
  {
    hide ReadAll, ReadsMac, ZeroMac, Parsed;
    var input, f := message[HEADER..], Parsed(message, crypto, FRESH).found;
    ParsedMac(message, crypto);
    ReadingRemembers(input, HEADER, FRESH);
    if SomeMac(input, HEADER) {
      var k := f.mac.offset - 4;
      ReadsMacInside(input, HEADER, k);
      assert forall j: nat :: LastMac(input, HEADER, j) ==> j == k;
      assert crypto.signer.Some? ==>
          (RightMac(message, crypto.signer.value, sigdata, k) <==>
           crypto.signer.value.verify(ZeroMac(message, f.mac.offset) + sigdata, message[f.mac.offset..f.mac.offset + MAC_SIZE]));
    }
  }

  /** Where parsing has the MAC from. */
  lemma ParsedMac(message: seq<byte>, crypto: Crypto)
    requires |message| >= HEADER && (crypto.crypter.Some? ==> crypto.crypter.value.blockSize > 0)
    requires Parsed(message, crypto, FRESH).ok && Parsed(message, crypto, FRESH).found.mac != Gone
    ensures ReadAll(message[HEADER..], HEADER, FRESH, false).ok
    ensures Parsed(message, crypto, FRESH).found.mac == ReadAll(message[HEADER..], HEADER, FRESH, false).found.mac
  {
    hide ReadAll;
    var f := ReadAll(message[HEADER..], HEADER, FRESH, false).found;
    if crypto.crypter.Some? && f.iv != [] && f.encr != [] {
      var plain := crypto.crypter.value.decrypt(f.encr, f.iv);
      if plain.Some? {
        HiddenMacGone(plain.value, 0, f);
      }
    }
  }

  /** A crypter that leaves everything as it is, and no signer. */
  function Open(): Crypto {
    Crypto(Some(Crypter(16, (plain, iv) => Some(plain), (cipher, iv) => Some(cipher))), None)
  }

  /** One notification after authentication: generated and parsed, and refused. */
  lemma LateNoticeRefused()
    ensures var hdr: seq<byte> := [1, 1, 0, 8, 18, NOTIFICATION, 0, 0];
            var attrs := [Attr(AT_NOTIFICATION, [0, 0])];
            var draw := Some(Fill(0, IV_SIZE));
            && AllLegal(attrs) && Equipped(Open(), attrs, NOTIFICATION) && Fits(Open(), attrs, NOTIFICATION)
            && var message := Generated(hdr, attrs, Open(), draw, []);
               && message.Some?
               && var r := Parsed(message.value, Open(), FRESH);
                  && r.ok && r.found.attrs == attrs && r.found.mac == Nowhere
                  && !Verified(message.value, Open(), r.found, [])
  {
    var hdr: seq<byte> := [1, 1, 0, 8, 18, NOTIFICATION, 0, 0];
    var a := Attr(AT_NOTIFICATION, [0, 0]);
    var attrs := [a];
    var draw := Some(Fill(0, IV_SIZE));
    OneHidden(a);
    assert Sound(Open());
    hide Generated, Parsed, Verified, PadAttr, EncodedAll, Concealed, Clear;
    assert Generated(hdr, attrs, Open(), draw, []).Some? by { OpenGenerates(hdr, attrs, draw); }
    ParseGenerated(hdr, attrs, Open(), draw, []);
    assert RecoveredAll([]) == [] && RecoveredAll(attrs) == attrs by { RecoveredAllIff(attrs); }
  }

  lemma OneHidden(a: Attr)
    requires a == Attr(AT_NOTIFICATION, [0, 0])
    ensures AllLegal([a]) && Clear([a]) == [] && Concealed([a]) == [a] && !NoLateNotice([a])
    ensures EncodedAll([]) == [] && |EncodedAll([a])| == 4 && |PadAttr(4, 16)| == 12
  {
    assert [a][1..] == [];
    assert !Phase(a.data);
  }

  lemma OpenGenerates(hdr: seq<byte>, attrs: seq<Attr>, draw: Option<seq<byte>>)
    requires |hdr| == HEADER && AllLegal(attrs) && !Signed(hdr[5])
    requires Equipped(Open(), attrs, hdr[5]) && Fits(Open(), attrs, hdr[5]) && draw.Some? && |draw.value| == IV_SIZE
    ensures Generated(hdr, attrs, Open(), draw, []).Some?
  {
    hide PadAttr, EncodedAll, Concealed, Clear, Assembled;
  }
}
