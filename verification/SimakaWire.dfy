/**
 * EAP-SIM/AKA on the wire (sections 8 and 10 of RFC 4187), kind by kind: what
 * travels encrypted, what the reader takes and refuses, and the bytes of a
 * message.
 */
module SimakaWire {
  import opened Bytes
  import opened SimakaAttributes
  import opened SimakaMessage
  import opened SimakaRoundTrip

  /** AT_COUNTER, AT_COUNTER_TOO_SMALL, AT_NONCE_S, AT_NEXT_PSEUDONYM and AT_NEXT_REAUTH_ID. */
  predicate SecretKind(kind: byte) {
    kind in {19, 20, 21, 132, 133}
  }

  /**
   * AT_RAND, AT_AUTN, AT_RES, AT_AUTS, AT_NONCE_MT, AT_PERMANENT_ID_REQ,
   * AT_ANY_ID_REQ, AT_IDENTITY, AT_VERSION_LIST, AT_SELECTED_VERSION,
   * AT_FULLAUTH_ID_REQ and AT_CLIENT_ERROR_CODE.
   */
  predicate OpenKind(kind: byte) {
    kind in {1, 2, 3, 4, 7, 10, 13, 14, 15, 16, 17, 22}
  }

  /** AT_NOTIFICATION with or without the P bit. */
  predicate Notice(a: Attr, phase: bool) {
    a.kind == 12 && |a.data| > 0 && (a.data[0] / 64 % 2 == 1) == phase
  }

  /** What is secret goes into the encrypted part, what is open into the clear one, and nothing else into either. */
  lemma {:induction false} GoesWhere(attrs: seq<Attr>, a: Attr)
    requires AllLegal(attrs)
    ensures a in Concealed(attrs) <==> a in attrs && (SecretKind(a.kind) || Notice(a, false))
    ensures a in Clear(attrs) <==> a in attrs && (OpenKind(a.kind) || Notice(a, true))
  {
    if attrs != [] {
      GoesWhere(attrs[1..], a);
      KindRule(attrs[0]);
      hide Legal, Hidden, Encodable, SecretKind, OpenKind, Notice;
      assert a in attrs <==> a == attrs[0] || a in attrs[1..];
    }
  }

  lemma KindRule(a: Attr)
    requires Legal(a)
    ensures Encodable(a.kind) && Hidden(a) <==> SecretKind(a.kind) || Notice(a, false)
    ensures Encodable(a.kind) && !Hidden(a) <==> OpenKind(a.kind) || Notice(a, true)
  {
  }

  /** The size the length byte states, in units of four bytes. */
  function Stated(input: seq<byte>): nat
    requires |input| >= 4
  {
    (input[1] as int) * 4
  }

  /** Following the length bytes from the front of an input one comes to an attribute at position k. */
  predicate HeaderAt(input: seq<byte>, k: nat)
    decreases |input|
  {
    && |input| >= 4
    && (k == 0 || (0 < Stated(input) <= k && HeaderAt(Skip(input, Stated(input)), k - Stated(input))))
  }

  lemma {:induction false} HeaderInside(input: seq<byte>, k: nat)
    requires HeaderAt(input, k)
    ensures k < |input|
    decreases |input|
  {
    if k > 0 {
      HeaderInside(Skip(input, Stated(input)), k - Stated(input));
    }
  }

  /** Bytes with a secret attribute in the clear cannot be read. */
  lemma {:induction false} SecretNotRead(input: seq<byte>, k: nat)
    requires HeaderAt(input, k) && k < |input| && SecretKind(input[k])
    ensures Items(input, false) == None
    decreases |input|
  {
    HeaderStep(input, k);
    ReadOneSize(input, false);
    hide ReadOne, Stated, HeaderAt, SecretKind, Skip;
    if k > 0 && ReadOne(input, false).Some? {
      SecretNotRead(Skip(input, Stated(input)), k - Stated(input));
    }
  }

  /** So reading them fails, whatever else they hold. */
  lemma SecretInClearRefused(input: seq<byte>, at: nat, f: Found, k: nat)
    requires HeaderAt(input, k) && k < |input| && SecretKind(input[k])
    ensures !ReadAll(input, at, f, false).ok
  {
    hide HeaderAt, SecretKind, ReadAll, Items;
    SecretNotRead(input, k);
    ReadAllIs(input, at, f, false);
  }

  lemma HeaderStep(input: seq<byte>, k: nat)
    requires HeaderAt(input, k) && k < |input|
    ensures |input| >= 4
    ensures k > 0 ==>
              var (n, rest) := (Stated(input), Skip(input, Stated(input)));
              0 < n <= k && HeaderAt(rest, k - n) && k - n < |rest| < |input| && rest[k - n] == input[k]
  {
    hide Stated;
    if k > 0 {
      HeaderInside(Skip(input, Stated(input)), k - Stated(input));
    }
  }

  lemma ReadOneSize(input: seq<byte>, encrypted: bool)
    requires |input| >= 4
    ensures ReadOne(input, encrypted).Some? ==> ReadOne(input, encrypted).value.1 == Stated(input)
    ensures SecretKind(input[0]) && !encrypted ==> ReadOne(input, encrypted) == None
  {
    ReadOneCases(input, encrypted);
    hide ReadOne;
  }

  /** So parsing any such message fails. */
  lemma SecretInClearFails(message: seq<byte>, crypto: Crypto, k: nat)
    requires |message| >= 8 && (crypto.crypter.Some? ==> crypto.crypter.value.blockSize > 0)
    requires HeaderAt(message[8..], k) && k < |message[8..]| && SecretKind(message[8..][k])
    ensures !Parsed(message, crypto, FRESH).ok
  {
    SecretInClearRefused(message[8..], 8, FRESH, k);
  }

  /** Reading one attribute, kind by kind: the lengths it may have and where its value is. */
  lemma ReadOneCases(input: seq<byte>, encrypted: bool)
    requires |input| >= 4
    ensures var (r, kind, units) := (ReadOne(input, encrypted), input[0], input[1] as nat);
            var stated := (input[2] as int) * 256 + input[3];
            var n: nat := if kind == 3 then stated / 8 else stated;
            if SecretKind(kind) && !encrypted then r == None
            else if kind in {10, 13, 17, 20} then r == if units == 1 then Some((Attr(kind, []), 4)) else None
            else if kind in {12, 16, 19, 22} then r == if units == 1 then Some((Attr(kind, input[2..4]), 4)) else None
            else if kind in {3, 14, 15, 132, 133} then
              r == if units >= 1 && n <= 4 * units && 4 + n <= |input| then Some((Attr(kind, input[4..4 + n]), 4 * units)) else None
            else if kind in {2, 7, 11, 21, 129} then
              r == if units == 5 && |input| >= 20 then Some((Attr(kind, input[4..20]), 20)) else None
            else if kind in {1, 130} then
              r == if 0 < 4 * units <= |input| then Some((Attr(kind, input[4..4 * units]), 4 * units)) else None
            else if kind == 4 then r == if units == 4 && |input| >= 16 then Some((Attr(kind, input[2..16]), 16)) else None
            else r == if 0 < 4 * units <= |input| then Some((Attr(kind, input[2..4 * units]), 4 * units)) else None
  {
    assert input[2..4] == [input[2], input[3]];
  }

  /** Reserved bytes and the filling of an attribute written are zero. */
  lemma ZerosWritten(a: Attr)
    requires Sized(a) && ShapeOf(a.kind) != Other
    ensures var s := Framed(a);
            && (s[1] as int) * 4 == |s|
            && (a.kind in {1, 2, 7, 10, 11, 13, 17, 20, 21, 129, 130} ==> s[2..4] == [0, 0])
            && (a.kind in {3, 14, 15, 132, 133} ==> |s| - 4 - |a.data| < 4 && forall i :: 4 + |a.data| <= i < |s| ==> s[i] == 0)
  {
  }

  // ----- reading a whole input

  /** The attributes of an input one after the other, or nothing if one cannot be read. */
  function Items(input: seq<byte>, encrypted: bool): Option<seq<Attr>>
    decreases |input|
  {
    if input == [] then Some([]) else
    match ReadOne(input, encrypted)
    case None => None
    case Some((a, n)) =>
      match Items(Skip(input, n), encrypted)
      case None => None
      case Some(rest) => Some([a] + rest)
  }

  /** The attributes kept: all but AT_MAC, AT_IV, AT_ENCR_DATA and AT_PADDING. */
  function Ordinary(items: seq<Attr>): seq<Attr> {
    if items == [] then [] else (if items[0].kind in {6, 11, 129, 130} then [] else [items[0]]) + Ordinary(items[1..])
  }

  /** The value of the last attribute of a kind, or what was there before. */
  function LastOf(items: seq<Attr>, kind: byte, before: seq<byte>): seq<byte> {
    if items == [] then before else LastOf(items[1..], kind, if items[0].kind == kind then items[0].data else before)
  }

  /** Every notification has the P bit. */
  predicate NoLate(items: seq<Attr>) {
    items == [] || (!Notice(items[0], false) && NoLate(items[1..]))
  }

  predicate NoNotice(items: seq<Attr>) {
    items == [] || (items[0].kind != 12 && NoNotice(items[1..]))
  }

  /** No notification behind one without the P bit. */
  predicate NoticesInOrder(items: seq<Attr>) {
    items == [] || ((!Notice(items[0], false) || NoNotice(items[1..])) && NoticesInOrder(items[1..]))
  }

  /**
   * Reading goes through exactly if every attribute can be read and, in the
   * clear, none is a notification behind one without the P bit; then it has kept
   * the ordinary attributes in order, the last IV and the last encrypted data,
   * and whether every notification had the P bit.
   */
  ghost predicate ReadsAs(f: Found, items: Option<seq<Attr>>, encrypted: bool, r: Reading) {
    && (r.ok <==> items.Some? && (encrypted || (NoticesInOrder(items.value) && (f.pBit || NoNotice(items.value)))))
    && (r.ok ==>
          && r.found.attrs == f.attrs + Ordinary(items.value)
          && r.found.iv == LastOf(items.value, 129, f.iv) && r.found.encr == LastOf(items.value, 130, f.encr)
          && r.found.pBit == (f.pBit && NoLate(items.value)))
  }

  /** What reading makes of any input. */
  lemma {:induction false} ReadAllIs(input: seq<byte>, at: nat, f: Found, encrypted: bool)
    ensures ReadsAs(f, Items(input, encrypted), encrypted, ReadAll(input, at, f, encrypted))
    decreases |input|
  {
    hide ReadOne, Keep, ReadsAs, KeptAs;
    if input == [] {
      NothingReadIs(f, encrypted);
    } else if ReadOne(input, encrypted).None? {
      NoItems(f, encrypted, Reading(false, f));
    } else {
      var (a, n) := ReadOne(input, encrypted).value;
      var (k, rest) := (Keep(f, a, at, encrypted), Skip(input, n));
      KeepIs(f, a, at, encrypted);
      if k.ok {
        ReadAllIs(rest, at + n, k.found, encrypted);
      }
      StepReadsAs(f, a, k, Items(rest, encrypted), encrypted, if k.ok then ReadAll(rest, at + n, k.found, encrypted) else k);
    }
  }

  lemma NothingReadIs(f: Found, encrypted: bool)
    ensures ReadsAs(f, Some([]), encrypted, Reading(true, f))
  {
  }

  lemma NoItems(f: Found, encrypted: bool, r: Reading)
    requires !r.ok
    ensures ReadsAs(f, None, encrypted, r)
  {
  }

  lemma StepReadsAs(f: Found, a: Attr, k: Reading, rest: Option<seq<Attr>>, encrypted: bool, r: Reading)
    requires a.kind == 12 ==> |a.data| > 0
    requires KeptAs(f, a, encrypted, k) && (if k.ok then ReadsAs(k.found, rest, encrypted, r) else r == k)
    ensures ReadsAs(f, match rest case None => None case Some(items) => Some([a] + items), encrypted, r)
  {
    if rest.Some? {
      hide Ordinary, LastOf, NoLate, NoNotice, NoticesInOrder;
      FirstItem(a, rest.value, f.iv, f.encr);
      FirstNotice(a, rest.value);
      assert (f.attrs + Ordinary([a])) + Ordinary(rest.value) == f.attrs + (Ordinary([a]) + Ordinary(rest.value));
    }
  }

  /** One attribute in the hands of the reader. */
  ghost predicate KeptAs(f: Found, a: Attr, encrypted: bool, k: Reading) {
    && (k.ok <==> a.kind != 12 || f.pBit || encrypted)
    && (k.ok ==>
          && k.found.attrs == f.attrs + Ordinary([a])
          && k.found.iv == (if a.kind == 129 then a.data else f.iv) && k.found.encr == (if a.kind == 130 then a.data else f.encr)
          && k.found.pBit == (f.pBit && !Notice(a, false)))
  }

  lemma KeepIs(f: Found, a: Attr, at: nat, encrypted: bool)
    requires a.kind == AT_NOTIFICATION ==> |a.data| > 0
    ensures KeptAs(f, a, encrypted, Keep(f, a, at, encrypted))
  {
    assert Ordinary([]) == [] && [a][1..] == [];
  }

  lemma FirstItem(a: Attr, rest: seq<Attr>, iv: seq<byte>, encr: seq<byte>)
    ensures var items := [a] + rest;
            && Ordinary(items) == Ordinary([a]) + Ordinary(rest)
            && LastOf(items, 129, iv) == LastOf(rest, 129, if a.kind == 129 then a.data else iv)
            && LastOf(items, 130, encr) == LastOf(rest, 130, if a.kind == 130 then a.data else encr)
  {
    assert ([a] + rest)[1..] == rest && [a][1..] == [] && Ordinary([]) == [];
  }

  lemma FirstNotice(a: Attr, rest: seq<Attr>)
    ensures var items := [a] + rest;
            && (NoLate(items) <==> !Notice(a, false) && NoLate(rest))
            && (NoNotice(items) <==> a.kind != 12 && NoNotice(rest))
            && (NoticesInOrder(items) <==> NoticesInOrder(rest) && (!Notice(a, false) || NoNotice(rest)))
  {
    hide Notice;
    assert ([a] + rest)[1..] == rest;
  }

  /** When parsing goes through: the clear part does, and the encrypted part, if there is one and keys for it. */
  lemma ParsedIff(message: seq<byte>, crypto: Crypto)
    requires |message| >= 8 && (crypto.crypter.Some? ==> crypto.crypter.value.blockSize > 0)
    ensures var clear := ReadAll(message[8..], 8, FRESH, false);
            Parsed(message, crypto, FRESH).ok <==>
              && clear.ok
              && (crypto.crypter.None? || clear.found.iv == [] || clear.found.encr == [] ||
                  (&& |clear.found.encr| % crypto.crypter.value.blockSize == 0
                   && match crypto.crypter.value.decrypt(clear.found.encr, clear.found.iv)
                      case None => false
                      case Some(plain) => ReadAll(plain, 0, clear.found, true).ok))
  {
    hide ReadAll;
  }

  // ----- the bytes of a message

  /** AT_PADDING up to a whole number of blocks. */
  predicate PadsUp(pad: seq<byte>, used: nat, blockSize: nat)
    requires blockSize > 0
  {
    && 4 <= |pad| <= blockSize && (used + |pad|) % blockSize == 0 && pad[0] == 6 && (pad[1] as int) * 4 == |pad|
    && forall i :: 2 <= i < |pad| ==> pad[i] == 0
  }

  /** Attributes in the clear are written one after the other; the others only encrypted, behind AT_IV, as AT_ENCR_DATA. */
  lemma FrontLayout(attrs: seq<Attr>, crypto: Crypto, draw: Option<seq<byte>>, subtype: byte)
    requires AllLegal(attrs) && Equipped(crypto, attrs, subtype) && Fits(crypto, attrs, subtype)
    requires (draw.Some? ==> |draw.value| == 16) && Front(attrs, crypto, draw, subtype).Some?
    ensures var front := Front(attrs, crypto, draw, subtype).value;
            if Concealed(attrs) == [] then front == EncodedAll(Clear(attrs))
            else draw.Some? && exists pad, cipher, units: byte ::
                   && PadsUp(pad, |EncodedAll(Concealed(attrs))|, crypto.crypter.value.blockSize)
                   && crypto.crypter.value.encrypt(EncodedAll(Concealed(attrs)) + pad, draw.value) == Some(cipher)
                   && units * 4 == |cipher| + 4
                   && front == EncodedAll(Clear(attrs)) + ([129, 5, 0, 0] + draw.value) + ([130, units, 0, 0] + cipher)
  {
    if Concealed(attrs) != [] {
      var c, hidden := crypto.crypter.value, EncodedAll(Concealed(attrs));
      assert Ciphertext(c, hidden, draw).Some?;
      WrappedIs(c, hidden, EncodedAll(Clear(attrs)), draw);
    }
  }

  lemma WrappedIs(c: Crypter, hidden: seq<byte>, clear: seq<byte>, draw: Option<seq<byte>>)
    requires CrypterOk(c) && c.blockSize <= ENCR_BUF && |hidden| % 4 == 0 && (draw.Some? ==> |draw.value| == 16)
    requires Ciphertext(c, hidden, draw).Some? && |hidden| + |PadAttr(|hidden|, c.blockSize)| <= ENCR_BUF
    ensures draw.Some? && exists pad, cipher, units: byte ::
              && PadsUp(pad, |hidden|, c.blockSize) && c.encrypt(hidden + pad, draw.value) == Some(cipher)
              && units * 4 == |cipher| + 4
              && clear + WrapOf(draw.value, Ciphertext(c, hidden, draw).value)
              == clear + ([129, 5, 0, 0] + draw.value) + ([130, units, 0, 0] + cipher)
  {
    var pad, cipher := PadAttr(|hidden|, c.blockSize), Ciphertext(c, hidden, draw).value;
    var units: byte := |cipher| / 4 + 1;
    PadIs(|hidden|, c.blockSize);
    WrapIs(draw.value, cipher, units);
    assert c.encrypt(hidden + pad, draw.value) == Some(cipher) && units * 4 == |cipher| + 4;
    hide PadAttr, WrapOf, PadsUp, CrypterOk, Ciphertext;
    assert clear + (([129, 5, 0, 0] + draw.value) + ([130, units, 0, 0] + cipher))
        == clear + ([129, 5, 0, 0] + draw.value) + ([130, units, 0, 0] + cipher);
  }

  lemma PadIs(used: nat, blockSize: nat)
    requires blockSize > 0 && blockSize % 4 == 0 && blockSize <= ENCR_BUF && used % 4 == 0
    ensures PadsUp(PadAttr(used, blockSize), used, blockSize)
  {
    BlockRest(used, blockSize);
  }

  lemma WrapIs(iv: seq<byte>, cipher: seq<byte>, units: byte)
    requires |iv| == 16 && |cipher| % 4 == 0 && |cipher| <= ENCR_BUF && units == |cipher| / 4 + 1
    ensures WrapOf(iv, cipher) == ([129, 5, 0, 0] + iv) + ([130, units, 0, 0] + cipher)
  {
    assert Framed(Attr(AT_IV, iv)) == [129, 5, 0, 0] + iv;
    assert Framed(Attr(AT_ENCR_DATA, cipher)) == [130, units, 0, 0] + cipher;
  }

  /**
   * A message generated: the header with the length filled in, the attributes,
   * and for challenges and reauthentications AT_MAC, whose value signs the
   * message with that value zero, and the data of the caller.
   */
  lemma GeneratedLayout(hdr: seq<byte>, attrs: seq<Attr>, crypto: Crypto, draw: Option<seq<byte>>, sigdata: seq<byte>)
    requires |hdr| == 8 && AllLegal(attrs) && Equipped(crypto, attrs, hdr[5]) && Fits(crypto, attrs, hdr[5])
    requires (draw.Some? ==> |draw.value| == 16) && Generated(hdr, attrs, crypto, draw, sigdata).Some?
    ensures Front(attrs, crypto, draw, hdr[5]).Some?
    ensures var (m, front) := (Generated(hdr, attrs, crypto, draw, sigdata).value, Front(attrs, crypto, draw, hdr[5]).value);
            && |m| >= 8 && m[..2] == hdr[..2] && m[2..4] == U16(|m|) && m[4..8] == hdr[4..]
            && if hdr[5] in {1, 11, 13} then
                 && |m| == 8 + |front| + 20 && m[8..|m| - 16] == front + [11, 5, 0, 0]
                 && crypto.signer.value.sign(m[..|m| - 16] + Fill(0, 16) + sigdata) == Some(m[|m| - 16..])
               else m[8..] == front
  {
    hide Front, U16, Fits;
    var front := Front(attrs, crypto, draw, hdr[5]).value;
    if Signed(hdr[5]) {
      var mac := MacValue(hdr, attrs, crypto, draw, sigdata);
      AssembledIs(hdr, front, mac);
      AssembledIs(hdr, front, NO_MAC);
      var (m, z) := (Assembled(hdr, front, mac), Assembled(hdr, front, NO_MAC));
      hide Assembled;
      assert z == z[..|z| - 16] + z[|z| - 16..] && z[..|z| - 16] == m[..|m| - 16];
    } else {
      AssembledIs(hdr, front, NO_MAC);
    }
  }

  lemma AssembledIs(hdr: seq<byte>, front: seq<byte>, mac: seq<byte>)
    requires |hdr| == 8 && |mac| == 16
    ensures var m := Assembled(hdr, front, mac);
            && m[..2] == hdr[..2] && m[2..4] == U16(|m|) && m[4..8] == hdr[4..]
            && if hdr[5] in {1, 11, 13} then
                 && |m| == 8 + |front| + 20 && m[8..|m| - 16] == front + [11, 5, 0, 0] && m[|m| - 16..] == mac
                 && m[..|m| - 16] == (hdr[..2] + U16(8 + |front| + 20) + hdr[4..]) + (front + [11, 5, 0, 0])
               else m[8..] == front
  {
    hide U16;
    if Signed(hdr[5]) {
      assert MacOf(hdr[5], mac) == [11, 5, 0, 0] + mac;
      hide MacOf;
      var m := Assembled(hdr, front, mac);
      var start := hdr[..2] + U16(|m|) + hdr[4..];
      assert m == (start + (front + [11, 5, 0, 0])) + mac;
    }
  }
}
