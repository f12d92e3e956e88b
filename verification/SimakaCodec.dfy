/** The EAP-SIM/AKA message object: parsing, verifying and generating in place. */
module SimakaCodec {
  import opened Bytes
  import opened SimakaAttributes
  import opened SimakaMessage
  import opened SimakaRoundTrip

  const EAP_REQUEST: byte := 1
  const EAP_RESPONSE: byte := 2
  const EAP_SIM: byte := 18
  const EAP_AKA: byte := 23

  /** A payload an object is created for. */
  predicate Acceptable(payload: seq<byte>) {
    && |payload| >= HEADER && FromU16(payload[2..4]) == |payload|
    && (payload[0] == EAP_REQUEST || payload[0] == EAP_RESPONSE)
    && (payload[4] == EAP_SIM || payload[4] == EAP_AKA)
  }

  /** Writes one attribute at a position of a buffer; a kind without a rule only spoils the byte there. */
  method Emit(buf: array<byte>, pos: nat, a: Attr) returns (next: nat)
    requires Legal(a) && pos + Max(1, |Encoded(a)|) <= buf.Length
    modifies buf
    ensures next == pos + |Encoded(a)| <= buf.Length && buf[..next] == old(buf[..pos]) + Encoded(a)
  {
    hide Framed;
    buf[pos] := a.kind;
    if Encodable(a.kind) {
      next := EmitValue(buf, pos, a);
    } else {
      next := pos;
    }
  }

  method EmitValue(buf: array<byte>, pos: nat, a: Attr) returns (next: nat)
    requires Sized(a) && Encodable(a.kind) && pos + |Framed(a)| <= buf.Length && buf[pos] == a.kind
    modifies buf
    ensures next == pos + |Framed(a)| <= buf.Length && buf[..next] == old(buf[..pos]) + Framed(a)
  {
    var value := Value(a);
    hide Framed;
    CopyInto(buf, pos + 1, value);
    next := pos + 1 + |value|;
    assert buf[pos..next] == [buf[pos]] + buf[pos + 1..next];
    Extended(old(buf[..]), buf[..], pos, next, Framed(a));
  }

  /** The length byte and what follows it. */
  method Value(a: Attr) returns (value: seq<byte>)
    requires Sized(a) && Encodable(a.kind)
    ensures Framed(a) == [a.kind] + value
  {
    hide CountField, Padding, CountedValue;
    var n := |a.data|;
    match ShapeOf(a.kind) {
      case Bare =>
        value := [1, 0, 0];
      case Pair =>
        value := [1] + a.data;
      case Counted =>
        value := CountValue(a);
      case Sixteen =>
        value := [5, 0, 0] + a.data;
      case Variable =>
        var units: byte := 1 + n / 4;
        value := [units, 0, 0] + a.data;
      case Fourteen =>
        value := [4] + a.data;
    }
  }

  method CountValue(a: Attr) returns (value: seq<byte>)
    requires |a.data| <= 1012
    ensures value == [Quads(|a.data| + Padding(|a.data|))] + CountedValue(a)
  {
    hide CountField;
    var n := |a.data|;
    var padding := (4 - n % 4) % 4;
    var units: byte := n / 4 + 1;
    if padding > 0 {
      units := units + 1;
    }
    QuadsOf(n, padding);
    hide Padding, Quads;
    value := [units] + CountField(a.kind, n) + a.data + Fill(0, padding);
  }

  lemma QuadsOf(n: nat, padding: nat)
    requires n <= 1012 && padding == Padding(n)
    ensures Quads(n + padding) == n / 4 + 1 + if padding > 0 then 1 else 0
  {
  }

  /** memcpy at a cursor, which moves on. */
  method Append(buf: array<byte>, pos: nat, s: seq<byte>) returns (next: nat)
    requires pos + |s| <= buf.Length
    modifies buf
    ensures next == pos + |s| && buf[..next] == old(buf[..pos]) + s
  {
    CopyInto(buf, pos, s);
    next := pos + |s|;
    Extended(old(buf[..]), buf[..], pos, next, s);
  }

  lemma Extended(was: seq<byte>, now: seq<byte>, pos: nat, next: nat, s: seq<byte>)
    requires |was| == |now| && pos <= next <= |now| && next == pos + |s| && now[pos..next] == s
    requires forall i :: 0 <= i < pos ==> now[i] == was[i]
    ensures now[..next] == was[..pos] + s
  {
    assert now[..next] == now[..pos] + now[pos..next];
  }

  /** Every attribute without a rule still finds a byte to spoil. */
  ghost predicate Room(attrs: seq<Attr>)
    requires AllLegal(attrs)
  {
    forall k :: 0 <= k < |attrs| && !Encodable(attrs[k].kind) ==>
      HEADER + |EncodedAll(Clear(attrs))| - |EncodedAll(Clear(attrs[k..]))| < OUT_BUF
  }

  /** Where the first attribute goes. */
  lemma FirstGoes(attrs: seq<Attr>)
    requires AllLegal(attrs) && attrs != []
    ensures var a := attrs[0];
            && (Hidden(a) ==> Encodable(a.kind))
            && EncodedAll(Clear(attrs)) == (if Hidden(a) then [] else Encoded(a)) + EncodedAll(Clear(attrs[1..]))
            && EncodedAll(Concealed(attrs)) == (if Hidden(a) then Encoded(a) else []) + EncodedAll(Concealed(attrs[1..]))
  {
    hide EncodedAll, Encoded, Hidden, Encodable, Sized;
    var a, others := attrs[0], attrs[1..];
    assert Legal(a);
    HiddenHasRule(a);
    FirstOfClear(attrs);
    hide Clear, Concealed;
    if Hidden(a) {
      EncodedCons(a, Concealed(others));
    } else if Encodable(a.kind) {
      EncodedCons(a, Clear(others));
    } else {
      EncodedSize(a);
    }
  }

  lemma FirstOfClear(attrs: seq<Attr>)
    requires AllLegal(attrs) && attrs != []
    ensures Clear(attrs) == if Encodable(attrs[0].kind) && !Hidden(attrs[0]) then [attrs[0]] + Clear(attrs[1..]) else Clear(attrs[1..])
    ensures Concealed(attrs) == if Hidden(attrs[0]) then [attrs[0]] + Concealed(attrs[1..]) else Concealed(attrs[1..])
  {
    HiddenHasRule(attrs[0]);
    hide Hidden, Encodable, Sized;
  }

  lemma HiddenHasRule(a: Attr)
    requires Legal(a)
    ensures Hidden(a) ==> Encodable(a.kind)
  {
  }

  lemma EncodedCons(a: Attr, others: seq<Attr>)
    requires Legal(a) && AllLegal(others)
    ensures AllLegal([a] + others) && EncodedAll([a] + others) == Encoded(a) + EncodedAll(others)
  {
    hide Encoded, Legal;
    assert ([a] + others)[1..] == others;
  }

  /** Writes the attributes into the two buffers. */
  method EncodeAttributes(attrs: seq<Attr>, outBuf: array<byte>, encrBuf: array<byte>) returns (out: nat, encr: nat)
    requires AllLegal(attrs) && Room(attrs) && outBuf != encrBuf && outBuf.Length == OUT_BUF && encrBuf.Length == ENCR_BUF
    requires HEADER + |EncodedAll(Clear(attrs))| <= OUT_BUF && |EncodedAll(Concealed(attrs))| <= ENCR_BUF
    modifies outBuf, encrBuf
    ensures out == HEADER + |EncodedAll(Clear(attrs))| && outBuf[..out] == old(outBuf[..HEADER]) + EncodedAll(Clear(attrs))
    ensures encr == |EncodedAll(Concealed(attrs))| && encrBuf[..encr] == EncodedAll(Concealed(attrs))
  {
    hide EncodedAll, Encoded, Clear, Concealed, Legal, Encodable;
    out, encr := HEADER, 0;
    ghost var clear, concealed := EncodedAll(Clear(attrs)), EncodedAll(Concealed(attrs));
    assert attrs[0..] == attrs;
    for i := 0 to |attrs|
      invariant HEADER <= out <= OUT_BUF && encr <= ENCR_BUF
      invariant outBuf[..out] + EncodedAll(Clear(attrs[i..])) == old(outBuf[..HEADER]) + clear
      invariant encrBuf[..encr] + EncodedAll(Concealed(attrs[i..])) == concealed
    {
      ghost var rest := attrs[i..];
      assert rest[1..] == attrs[i + 1..] && rest[0] == attrs[i];
      FirstGoes(rest);
      assert |outBuf[..out] + EncodedAll(Clear(rest))| == HEADER + |clear|;
      assert |encrBuf[..encr] + EncodedAll(Concealed(rest))| == |concealed|;
      EncodedSize(attrs[i]);
      out, encr := EmitTo(attrs[i], outBuf, out, encrBuf, encr);
    }
    NothingRecovered();
    assert Clear(attrs[|attrs|..]) == [] && Concealed(attrs[|attrs|..]) == [] by { NothingLeft(attrs[|attrs|..]); }
  }

  lemma EncodedSize(a: Attr)
    requires Legal(a)
    ensures if Encodable(a.kind) then |Encoded(a)| >= 4 else Encoded(a) == []
  {
    hide Framed;
  }

  lemma NothingLeft(attrs: seq<Attr>)
    requires attrs == []
    ensures Clear(attrs) == [] && Concealed(attrs) == []
  {
  }

  /** Encrypted or in the clear. */
  method EmitTo(a: Attr, outBuf: array<byte>, out: nat, encrBuf: array<byte>, encr: nat) returns (out': nat, encr': nat)
    requires Legal(a) && outBuf != encrBuf && (Hidden(a) ==> Encodable(a.kind))
    requires Hidden(a) ==> encr + |Encoded(a)| <= encrBuf.Length
    requires !Hidden(a) ==> out + Max(1, |Encoded(a)|) <= outBuf.Length
    requires out <= outBuf.Length && encr <= encrBuf.Length
    modifies outBuf, encrBuf
    ensures out' <= outBuf.Length && outBuf[..out'] == old(outBuf[..out]) + if Hidden(a) then [] else Encoded(a)
    ensures encr' <= encrBuf.Length && encrBuf[..encr'] == old(encrBuf[..encr]) + if Hidden(a) then Encoded(a) else []
  {
    hide Framed, Sized;
    if Hidden(a) {
      encr' := Emit(encrBuf, encr, a);
      out' := out;
    } else {
      out' := Emit(outBuf, out, a);
      encr' := encr;
    }
  }

  lemma EmptyIff(attrs: seq<Attr>)
    requires AllLegal(attrs) && forall i :: 0 <= i < |attrs| ==> Encodable(attrs[i].kind)
    ensures attrs == [] <==> EncodedAll(attrs) == []
  {
    if attrs != [] {
      EncodedSize(attrs[0]);
      hide Encoded;
    }
  }

  /** Pads and encrypts the concealed attributes and appends them with their IV. */
  method Protect(c: Crypter, outBuf: array<byte>, out: nat, encrBuf: array<byte>, encr: nat, draw: Option<seq<byte>>)
      returns (ok: bool, out': nat)
    requires CrypterOk(c) && c.blockSize <= ENCR_BUF && encr % 4 == 0 && outBuf != encrBuf
    requires (draw.Some? ==> |draw.value| == IV_SIZE) && encrBuf.Length == ENCR_BUF
    requires encr + |PadAttr(encr, c.blockSize)| <= ENCR_BUF
    requires out + 4 + IV_SIZE + 4 + encr + |PadAttr(encr, c.blockSize)| <= outBuf.Length
    modifies outBuf, encrBuf
    ensures ok == old(Ciphertext(c, encrBuf[..encr], draw).Some?)
    ensures ok ==> out' <= outBuf.Length &&
                   outBuf[..out'] == old(outBuf[..out]) + WrapOf(draw.value, old(Ciphertext(c, encrBuf[..encr], draw).value))
  {
    hide PadAttr, WrapOf;
    var plain := Pad(encrBuf, encr, c.blockSize);
    ghost var was := old(encrBuf[..encr]);
    assert |was| == encr;
    SumOfQuads(encr, |PadAttr(encr, c.blockSize)|);
    if draw.None? {
      return false, out;
    }
    match c.encrypt(plain, draw.value) {
      case None =>
        return false, out;
      case Some(cipher) =>
        out' := AppendWrap(outBuf, out, draw.value, cipher);
        ok := true;
    }
  }

  method Pad(encrBuf: array<byte>, encr: nat, blockSize: nat) returns (plain: seq<byte>)
    requires blockSize > 0 && blockSize % 4 == 0 && blockSize <= ENCR_BUF && encr % 4 == 0
    requires encr + |PadAttr(encr, blockSize)| <= encrBuf.Length
    modifies encrBuf
    ensures plain == old(encrBuf[..encr]) + PadAttr(encr, blockSize)
  {
    var padding := blockSize - encr % blockSize;
    BlockRest(encr, blockSize);
    var units: byte := padding / 4;
    var pad: seq<byte> := [AT_PADDING, units] + Fill(0, padding - 2);
    assert pad == PadAttr(encr, blockSize);
    hide PadAttr;
    var end := Append(encrBuf, encr, pad);
    plain := encrBuf[..end];
  }

  method AppendWrap(outBuf: array<byte>, out: nat, iv: seq<byte>, cipher: seq<byte>) returns (out': nat)
    requires |iv| == IV_SIZE && |cipher| % 4 == 0 && |cipher| <= ENCR_BUF
    requires out + |WrapOf(iv, cipher)| <= outBuf.Length
    modifies outBuf
    ensures out' == out + |WrapOf(iv, cipher)| && outBuf[..out'] == old(outBuf[..out]) + WrapOf(iv, cipher)
  {
    var units: byte := |cipher| / 4 + 1;
    WrapBytes(iv, cipher, units);
    out' := AppendTwo(outBuf, out, [AT_IV, 5, 0, 0] + iv, [AT_ENCR_DATA, units, 0, 0] + cipher);
  }

  method AppendTwo(buf: array<byte>, pos: nat, first: seq<byte>, second: seq<byte>) returns (next: nat)
    requires pos + |first| + |second| <= buf.Length
    modifies buf
    ensures next == pos + |first| + |second| && buf[..next] == old(buf[..pos]) + (first + second)
  {
    next := Append(buf, pos, first);
    next := Append(buf, next, second);
  }

  lemma WrapBytes(iv: seq<byte>, cipher: seq<byte>, units: byte)
    requires |iv| == IV_SIZE && |cipher| % 4 == 0 && |cipher| <= ENCR_BUF && units == |cipher| / 4 + 1
    ensures WrapOf(iv, cipher) == ([AT_IV, 5, 0, 0] + iv) + ([AT_ENCR_DATA, units, 0, 0] + cipher)
  {
    assert Framed(Attr(AT_IV, iv)) == [AT_IV, 5, 0, 0] + iv;
    assert Framed(Attr(AT_ENCR_DATA, cipher)) == [AT_ENCR_DATA, units, 0, 0] + cipher by { FramedData(cipher, units); }
    hide Framed;
  }

  lemma FramedData(cipher: seq<byte>, units: byte)
    requires |cipher| % 4 == 0 && |cipher| <= ENCR_BUF && units == |cipher| / 4 + 1
    ensures Framed(Attr(AT_ENCR_DATA, cipher)) == [AT_ENCR_DATA, units, 0, 0] + cipher
  {
  }

  /** Appends the MAC attribute if the subtype has one, fills in the length and signs. */
  method Finish(crypto: Crypto, outBuf: array<byte>, out: nat, sigdata: seq<byte>, ghost hdr: seq<byte>, ghost front: seq<byte>)
      returns (gen: Option<seq<byte>>)
    requires |hdr| == HEADER && out == HEADER + |front| && outBuf.Length == OUT_BUF
    requires out + (if Signed(hdr[5]) then 4 + MAC_SIZE else 0) <= OUT_BUF && outBuf[..out] == hdr + front
    requires Signed(hdr[5]) ==> crypto.signer.Some? && SignerOk(crypto.signer.value)
    modifies outBuf
    ensures Signed(hdr[5]) ==>
              match crypto.signer.value.sign(Assembled(hdr, front, NO_MAC) + sigdata)
              case None => gen == None
              case Some(mac) => gen == Some(Assembled(hdr, front, mac))
    ensures !Signed(hdr[5]) ==> gen == Some(Assembled(hdr, front, NO_MAC))
  {
    hide U16, MacOf, Signed, SignerOk;
    var out' := out;
    assert outBuf[5] == outBuf[..out][5] == hdr[5];
    if Signed(outBuf[5]) {
      var slot: seq<byte> := [AT_MAC, 5, 0, 0] + Fill(0, MAC_SIZE);
      out' := Append(outBuf, out, slot);
      assert slot == MacOf(hdr[5], NO_MAC) by { MacBytes(hdr[5], NO_MAC); }
    }
    assert outBuf[..out'] == hdr + (front + MacOf(hdr[5], NO_MAC));
    PutLength(outBuf, out', hdr, front + MacOf(hdr[5], NO_MAC));
    assert outBuf[..out'] == Assembled(hdr, front, NO_MAC);
    assert outBuf[5] == outBuf[..out'][5] == hdr[5];
    if !Signed(outBuf[5]) {
      return Some(outBuf[..out']);
    }
    match crypto.signer.value.sign(outBuf[..out'] + sigdata) {
      case None =>
        return None;
      case Some(mac) =>
        assert |mac| == MAC_SIZE by { SignerSize(crypto.signer.value, outBuf[..out'] + sigdata, mac); }
        var signed := PutMac(outBuf, out', hdr, front, mac);
        gen := Some(signed);
    }
  }

  /** Fills in the length field of the header. */
  method PutLength(outBuf: array<byte>, out: nat, ghost hdr: seq<byte>, ghost tail: seq<byte>)
    requires |hdr| == HEADER && out == HEADER + |tail| <= outBuf.Length && outBuf[..out] == hdr + tail
    modifies outBuf
    ensures outBuf[..out] == WithLength(hdr, out) + tail
  {
    hide U16;
    CopyInto(outBuf, 2, U16(out));
    assert outBuf[..out][2..4] == outBuf[2..4];
    FieldPlaced(hdr, tail, U16(out), outBuf[..out]);
  }

  lemma FieldPlaced(hdr: seq<byte>, tail: seq<byte>, field: seq<byte>, now: seq<byte>)
    requires |hdr| == HEADER && |field| == 2 && |now| == HEADER + |tail| && now[2..4] == field
    requires forall i :: 0 <= i < |now| && !(2 <= i < 4) ==> now[i] == (hdr + tail)[i]
    ensures now == hdr[..2] + field + hdr[4..] + tail
  {
    assert now[..2] == hdr[..2];
    assert now[4..HEADER] == hdr[4..];
    assert now[HEADER..] == tail;
    assert now == now[..2] + now[2..4] + now[4..HEADER] + now[HEADER..];
  }

  method PutMac(outBuf: array<byte>, out: nat, ghost hdr: seq<byte>, ghost front: seq<byte>, mac: seq<byte>)
      returns (signed: seq<byte>)
    requires |hdr| == HEADER && Signed(hdr[5]) && |mac| == MAC_SIZE && out <= outBuf.Length
    requires outBuf[..out] == Assembled(hdr, front, NO_MAC)
    modifies outBuf
    ensures signed == Assembled(hdr, front, mac)
  {
    hide U16, Signed, MacOf;
    MacBytes(hdr[5], NO_MAC);
    MacBytes(hdr[5], mac);
    ghost var n := HEADER + |front + MacOf(hdr[5], mac)|;
    ghost var before := WithLength(hdr, n) + front + [AT_MAC, 5, 0, 0];
    assert outBuf[..out] == before + NO_MAC;
    CopyInto(outBuf, out - MAC_SIZE, mac);
    signed := outBuf[..out];
    assert signed == before + mac;
  }

  lemma MacBytes(subtype: byte, mac: seq<byte>)
    requires |mac| == MAC_SIZE && Signed(subtype)
    ensures MacOf(subtype, mac) == [AT_MAC, 5, 0, 0] + mac
  {
  }

  lemma SignerSize(s: Signer, data: seq<byte>, mac: seq<byte>)
    requires SignerOk(s) && s.sign(data) == Some(mac)
    ensures |mac| == MAC_SIZE
  {
  }

  class Message {
    /** The EAP message, starting with its header; the MAC is zeroed in place. */
    const data: array<byte>
    var crypto: Crypto
    var attributes: seq<Attr>
    var encrypted: bool
    var pBit: bool
    var mac: Place
    var encr: seq<byte>
    var iv: seq<byte>

    ghost predicate Valid()
      reads this, data
    {
      && data.Length >= HEADER && FromU16(data[2..4]) == data.Length
      && (mac.At? ==> HEADER <= mac.offset && mac.offset + MAC_SIZE <= data.Length)
    }

    ghost function Now(): Found
      reads this
    {
      Found(attributes, mac, iv, encr, pBit)
    }

    constructor (payload: seq<byte>, crypto: Crypto)
      requires |payload| >= HEADER && FromU16(payload[2..4]) == |payload|
      ensures Valid() && fresh(data) && data[..] == payload && Now() == FRESH && !encrypted && this.crypto == crypto
    {
      var copy := new byte[|payload|](i requires 0 <= i < |payload| => payload[i]);
      data := copy;
      this.crypto := crypto;
      attributes, encrypted, pBit, mac, encr, iv := [], false, true, Nowhere, [], [];
      new;
      assert data[..] == payload;
    }

    static method FromPayload(payload: seq<byte>, crypto: Crypto) returns (m: Option<Message>)
      ensures m.Some? <==> Acceptable(payload)
      ensures m.Some? ==> fresh(m.value) && fresh(m.value.data) && m.value.Valid() && m.value.data[..] == payload
      ensures m.Some? ==> m.value.Now() == FRESH && !m.value.encrypted && m.value.crypto == crypto
    {
      if |payload| < HEADER || FromU16(payload[2..4]) != |payload| {
        return None;
      }
      if payload[0] != EAP_REQUEST && payload[0] != EAP_RESPONSE {
        return None;
      }
      if payload[4] != EAP_SIM && payload[4] != EAP_AKA {
        return None;
      }
      var message := new Message(payload, crypto);
      return Some(message);
    }

    /** The input is the rest of the message from a position on, or decrypted data. */
    method ParseAttributes(input: seq<byte>, at: nat) returns (ok: bool)
      requires Valid() && (!encrypted ==> HEADER <= at && at + |input| == data.Length)
      modifies this`attributes, this`mac, this`iv, this`encr, this`pBit
      ensures Valid() && Reading(ok, Now()) == ReadAll(input, at, old(Now()), encrypted)
    {
      hide ReadOne, FromU16, Keep;
      var rest, pos := input, at;
      while rest != []
        invariant Valid() && at <= pos && (rest != [] ==> pos + |rest| == at + |input|)
        invariant ReadAll(input, at, old(Now()), encrypted) == ReadAll(rest, pos, Now(), encrypted)
        decreases |rest|
      {
        var read := ReadOne(rest, encrypted);
        if read.None? {
          return false;
        }
        var (a, n) := read.value;
        ghost var before := Now();
        var kept := KeepAttribute(a, pos);
        assert Reading(kept, Now()) == Keep(before, a, pos, encrypted);
        if !kept {
          return false;
        }
        rest, pos := Skip(rest, n), pos + n;
      }
      return true;
    }

    method KeepAttribute(a: Attr, at: nat) returns (ok: bool)
      requires Valid() && (a.kind == AT_NOTIFICATION ==> |a.data| > 0)
      requires !encrypted && a.kind == AT_MAC ==> HEADER <= at && at + 4 + MAC_SIZE <= data.Length
      modifies this`attributes, this`mac, this`iv, this`encr, this`pBit
      ensures Valid() && Reading(ok, Now()) == Keep(old(Now()), a, at, encrypted)
    {
      hide FromU16;
      if a.kind == AT_MAC {
        mac := if encrypted then Gone else At(at + 4);
      } else if a.kind == AT_IV {
        iv := a.data;
      } else if a.kind == AT_ENCR_DATA {
        encr := a.data;
      } else if a.kind == AT_PADDING {
      } else {
        if a.kind == AT_NOTIFICATION {
          if pBit {
            pBit := HasFlag(a.data[0], 0x40);
          } else if !encrypted {
            return false;
          }
        }
        attributes := attributes + [a];
      }
      return true;
    }

    method Decrypt() returns (ok: bool)
      requires Valid() && !encrypted && (crypto.crypter.Some? ==> crypto.crypter.value.blockSize > 0)
      modifies this`attributes, this`mac, this`iv, this`encr, this`pBit, this`encrypted
      ensures Valid() && !encrypted && Reading(ok, Now()) == Decrypted(crypto, old(Now()))
    {
      hide ReadAll, FromU16;
      if crypto.crypter.None? || iv == [] || encr == [] || encrypted {
        return true;
      }
      var c := crypto.crypter.value;
      if |encr| % c.blockSize != 0 {
        return false;
      }
      match c.decrypt(encr, iv) {
        case None =>
          return false;
        case Some(plain) =>
          encrypted := true;
          ok := ParseAttributes(plain, 0);
          encrypted := false;
      }
    }

    method Parse() returns (ok: bool)
      requires Valid() && !encrypted && (crypto.crypter.Some? ==> crypto.crypter.value.blockSize > 0)
      modifies this`attributes, this`mac, this`iv, this`encr, this`pBit, this`encrypted
      ensures Valid() && !encrypted && Reading(ok, Now()) == Parsed(data[..], crypto, old(Now()))
    {
      hide ReadAll, Decrypted, FromU16;
      if attributes != [] {
        ok := Decrypt();
        return;
      }
      assert data[..][HEADER..] == data[HEADER..];
      ok := ParseAttributes(data[HEADER..], HEADER);
      if ok {
        ok := Decrypt();
      }
    }

    /** Verifying zeroes the MAC in the message, and leaves it so. */
    method Verify(sigdata: seq<byte>) returns (ok: bool)
      requires Valid() && mac != Gone
      modifies data
      ensures Valid() && ok == old(Verified(data[..], crypto, Now(), sigdata))
      ensures data[..] == if MacRule(data[5], pBit, mac.At? && crypto.signer.Some?).None? then old(ZeroMac(data[..], mac.offset))
                          else old(data[..])
    {
      hide FromU16;
      var rule := MacRule(data[5], pBit, mac.At? && crypto.signer.Some?);
      if rule.Some? {
        return rule.value;
      }
      var at := mac.offset;
      var backup := data[at..at + MAC_SIZE];
      CopyInto(data, at, Fill(0, MAC_SIZE));
      assert data[..] == old(ZeroMac(data[..], at)) && old(data[..][at..at + MAC_SIZE]) == backup;
      assert data[2..4] == old(data[2..4]);
      ok := crypto.signer.value.verify(data[..] + sigdata, backup);
    }

    /** The random source's draw for the IV, if it has one, is a parameter. */
    method Generate(sigdata: seq<byte>, draw: Option<seq<byte>>) returns (gen: Option<seq<byte>>)
      requires Valid() && AllLegal(attributes) && Room(attributes)
      requires Equipped(crypto, attributes, data[5]) && Fits(crypto, attributes, data[5])
      requires draw.Some? ==> |draw.value| == IV_SIZE
      ensures gen == Generated(data[..HEADER], attributes, crypto, draw, sigdata)
    {
      hide EncodedAll, Clear, Concealed, Ciphertext, PadAttr, Framed, WrapOf, AllLegal, FromU16, Assembled, MacOf;
      var outBuf := new byte[OUT_BUF];
      var encrBuf := new byte[ENCR_BUF];
      CopyInto(outBuf, 0, data[..HEADER]);
      assert outBuf[..HEADER] == data[..HEADER];
      NothingRecovered();
      EmptyIff(Concealed(attributes));
      var out, encr := EncodeAttributes(attributes, outBuf, encrBuf);
      if encr > 0 {
        var ok: bool;
        ok, out := Protect(crypto.crypter.value, outBuf, out, encrBuf, encr, draw);
        if !ok {
          return None;
        }
      }
      assert Front(attributes, crypto, draw, data[5]).Some?;
      ghost var front := Front(attributes, crypto, draw, data[5]).value;
      assert outBuf[..out] == data[..HEADER] + front;
      gen := Finish(crypto, outBuf, out, sigdata, data[..HEADER], front);
    }
  }

  /** Generating on one side, creating, parsing and verifying on the other. */
  method Transmit(sender: Message, sigdata: seq<byte>, draw: Option<seq<byte>>)
      returns (attrs: Option<seq<Attr>>, verified: bool)
    requires sender.Valid() && AllLegal(sender.attributes) && Room(sender.attributes) && Sound(sender.crypto)
    requires sender.data[0] == EAP_REQUEST || sender.data[0] == EAP_RESPONSE
    requires sender.data[4] == EAP_SIM || sender.data[4] == EAP_AKA
    requires Equipped(sender.crypto, sender.attributes, sender.data[5]) && Fits(sender.crypto, sender.attributes, sender.data[5])
    requires sender.crypto.crypter.Some? ==> sender.crypto.crypter.value.blockSize > 0
    requires draw.Some? ==> |draw.value| == IV_SIZE
    ensures attrs.Some? <==> Generated(sender.data[..HEADER], sender.attributes, sender.crypto, draw, sigdata).Some?
    ensures attrs.Some? ==>
              && attrs.value == RecoveredAll(Clear(sender.attributes)) + RecoveredAll(Concealed(sender.attributes))
              && verified == Accepted(sender.data[5], sender.attributes)
  {
    hide Generated, Parsed, Verified, RecoveredAll, Clear, Concealed, Accepted, MacRule, ZeroMac, FromU16, U16;
    var gen := sender.Generate(sigdata, draw);
    if gen.None? {
      return None, false;
    }
    ParseGenerated(sender.data[..HEADER], sender.attributes, sender.crypto, draw, sigdata);
    GeneratedHeader(sender.data[..HEADER], sender.attributes, sender.crypto, draw, sigdata);
    var created := Message.FromPayload(gen.value, sender.crypto);
    var receiver := created.value;
    var ok := receiver.Parse();
    verified := receiver.Verify(sigdata);
    return Some(receiver.attributes), verified;
  }

  /** A generated message is one the receiver creates an object for. */
  lemma GeneratedHeader(hdr: seq<byte>, attrs: seq<Attr>, crypto: Crypto, draw: Option<seq<byte>>, sigdata: seq<byte>)
    requires |hdr| == HEADER && AllLegal(attrs) && Equipped(crypto, attrs, hdr[5]) && Fits(crypto, attrs, hdr[5])
    requires (hdr[0] == EAP_REQUEST || hdr[0] == EAP_RESPONSE) && (hdr[4] == EAP_SIM || hdr[4] == EAP_AKA)
    requires draw.Some? ==> |draw.value| == IV_SIZE
    requires Generated(hdr, attrs, crypto, draw, sigdata).Some?
    ensures Acceptable(Generated(hdr, attrs, crypto, draw, sigdata).value)
  {
    hide Fits, Equipped, Assembled, MacOf, FromU16, U16, Concealed, Clear, EncodedAll;
    var front := Front(attrs, crypto, draw, hdr[5]).value;
    var mac := MacValue(hdr, attrs, crypto, draw, sigdata);
    var message := Assembled(hdr, front, mac);
    AssembledParts(hdr, front, mac);
    AssembledHeader(hdr, front, mac);
    assert |message| <= OUT_BUF by { FrontFits(attrs, crypto, draw, hdr[5]); }
    U16RoundTrip(|message|);
  }

  lemma AssembledHeader(hdr: seq<byte>, front: seq<byte>, mac: seq<byte>)
    requires |hdr| == HEADER && |mac| == MAC_SIZE
    ensures Assembled(hdr, front, mac)[0] == hdr[0] && Assembled(hdr, front, mac)[4] == hdr[4]
  {
  }

  lemma FrontFits(attrs: seq<Attr>, crypto: Crypto, draw: Option<seq<byte>>, subtype: byte)
    requires AllLegal(attrs) && Equipped(crypto, attrs, subtype) && Fits(crypto, attrs, subtype)
    requires (draw.Some? ==> |draw.value| == IV_SIZE) && Front(attrs, crypto, draw, subtype).Some?
    ensures HEADER + |Front(attrs, crypto, draw, subtype).value| + (if Signed(subtype) then 4 + MAC_SIZE else 0) <= OUT_BUF
  {
    hide EncodedAll, PadAttr, WrapOf, Ciphertext, Concealed, Clear, Signed;
  }
}
