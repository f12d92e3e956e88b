/**
 * RADIUS messages (section 3 of RFC 2865, section 3.2 of RFC 3579): adding
 * attributes, signing, verifying and enumerating, over the bytes of the message.
 */
module RadiusMessage {
  import opened Bytes
  import opened RadiusCrypt

  const HEADER: nat := 20
  const MAX_ATTRIBUTE: nat := 253
  const MAX_MESSAGE: nat := 65535

  const ACCESS_REQUEST: byte := 1
  const USER_PASSWORD: byte := 2
  const EAP_MESSAGE: byte := 79
  const MESSAGE_AUTHENTICATOR: byte := 80

  datatype Attr = Attr(kind: byte, value: seq<byte>)

  datatype Signer = Signer(sign: seq<byte> -> Option<seq<byte>>, verify: (seq<byte>, seq<byte>) -> bool)

  ghost predicate SignerOk(s: Signer) {
    forall data :: match s.sign(data) case None => true case Some(sig) => |sig| == HASH_SIZE
  }

  ghost predicate SignerSound(s: Signer) {
    forall data :: match s.sign(data) case None => true case Some(sig) => s.verify(data, sig)
  }

  const ZEROS: seq<byte> := Fill(0, HASH_SIZE)

  /** Bytes with a RADIUS header whose length field is right. */
  predicate WellFormed(m: seq<byte>) {
    |m| >= HEADER && FromU16(m[2..4]) == |m|
  }

  predicate Short(a: Attr) {
    |a.value| <= MAX_ATTRIBUTE
  }

  predicate AllShort(attrs: seq<Attr>) {
    forall i :: 0 <= i < |attrs| ==> Short(attrs[i])
  }

  function Flat(a: Attr): (s: seq<byte>)
    requires Short(a)
    ensures |s| == 2 + |a.value|
  {
    var n: byte := 2 + |a.value|;
    [a.kind, n] + a.value
  }

  function FlatAll(attrs: seq<Attr>): seq<byte>
    requires AllShort(attrs)
  {
    if attrs == [] then [] else Flat(attrs[0]) + FlatAll(attrs[1..])
  }

  lemma {:induction false} FlatAppend(attrs: seq<Attr>, more: seq<Attr>)
    requires AllShort(attrs) && AllShort(more)
    ensures AllShort(attrs + more) && FlatAll(attrs + more) == FlatAll(attrs) + FlatAll(more)
  {
    hide Flat;
    if attrs == [] {
      assert attrs + more == more;
    } else {
      FlatAppend(attrs[1..], more);
      assert (attrs + more)[1..] == attrs[1..] + more;
    }
  }

  lemma FlatSingle(a: Attr)
    requires Short(a)
    ensures AllShort([a]) && FlatAll([a]) == Flat(a)
  {
    assert [a][1..] == [] && FlatAll([]) == [];
  }

  /** A message as its parts. */
  function Raw(code: byte, id: byte, auth: seq<byte>, attrs: seq<Attr>): (m: seq<byte>)
    requires |auth| == HASH_SIZE && AllShort(attrs)
    ensures |m| == HEADER + |FlatAll(attrs)|
  {
    [code, id] + U16(HEADER + |FlatAll(attrs)|) + auth + FlatAll(attrs)
  }

  /** Storing one more attribute. */
  function Added(m: seq<byte>, a: Attr): seq<byte>
    requires |m| >= HEADER && Short(a)
  {
    m[..2] + U16(|m| + 2 + |a.value|) + m[4..] + Flat(a)
  }

  function Cut(data: seq<byte>): (r: seq<byte>)
    ensures |r| == Min(|data|, MAX_ATTRIBUTE) && r <= data
  {
    data[..Min(|data|, MAX_ATTRIBUTE)]
  }

  function WithAuth(m: seq<byte>, auth: seq<byte>): (r: seq<byte>)
    requires |m| >= HEADER && |auth| == HASH_SIZE
    ensures |r| == |m|
  {
    m[..4] + auth + m[HEADER..]
  }

  /** The password filled up with zeros to whole blocks. */
  function Padded(data: seq<byte>): (r: seq<byte>)
    ensures Blocks(r)
  {
    data + Fill(0, PadLen(|data|, HASH_SIZE))
  }

  /** Where the random source or the request says the authenticator comes from. */
  datatype Origin = Random(draw: Option<seq<byte>>) | Request(auth: seq<byte>) | Zero

  predicate OriginOk(o: Origin) {
    match o
    case Random(draw) => draw.Some? ==> |draw.value| == HASH_SIZE
    case Request(auth) => |auth| == HASH_SIZE
    case Zero => true
  }

  /** The authenticator while the message is being signed. */
  function Initial(o: Origin): (auth: Option<seq<byte>>)
    requires OriginOk(o)
    ensures auth.Some? ==> |auth.value| == HASH_SIZE
  {
    match o
    case Random(draw) => draw
    case Request(auth) => Some(auth)
    case Zero => Some(ZEROS)
  }

  /** The password as it goes into the message: encrypted, cut to what an attribute holds. */
  function Sealed(hash: Hash, secret: seq<byte>, auth: seq<byte>, password: seq<byte>): (r: Option<seq<byte>>)
    requires HashOk(hash) && Blocks(password)
    ensures r.Some? ==> |r.value| == |password|
  {
    match hash(Seed(secret, auth, []))
    case None => None
    case Some(key) => Crypted(hash, secret, key, password, true)
  }

  /** The most signing adds. */
  function Growth(password: seq<byte>, msgAuth: bool): nat {
    (if password == [] then 0 else 2 + Min(|password|, MAX_ATTRIBUTE)) + (if msgAuth then 2 + HASH_SIZE else 0)
  }

  function WithPassword(m: seq<byte>, hash: Hash, secret: seq<byte>, password: seq<byte>): (r: Option<seq<byte>>)
    requires |m| >= HEADER && HashOk(hash) && Blocks(password)
    ensures r.Some? ==> |r.value| == |m| + Growth(password, false)
  {
    if password == [] then Some(m) else
    match Sealed(hash, secret, m[4..HEADER], password)
    case None => None
    case Some(c) => Some(Added(m, Attr(USER_PASSWORD, Cut(c))))
  }

  /** The Message-Authenticator covers the message with the attribute's value zero. */
  function WithMac(m: seq<byte>, signer: Signer, msgAuth: bool): (r: Option<seq<byte>>)
    requires |m| >= HEADER && SignerOk(signer)
    ensures r.Some? ==> |r.value| == |m| + Growth([], msgAuth)
  {
    if !msgAuth then Some(m) else
    var z := Added(m, Attr(MESSAGE_AUTHENTICATOR, ZEROS));
    match signer.sign(z)
    case None => None
    case Some(sig) => Some(z[..|z| - HASH_SIZE] + sig)
  }

  /** The Response-Authenticator replaces the request's. */
  function WithResponse(m: seq<byte>, hash: Hash, secret: seq<byte>, origin: Origin): (r: Option<seq<byte>>)
    requires |m| >= HEADER && HashOk(hash)
    ensures r.Some? ==> |r.value| == |m|
  {
    if origin.Random? then Some(m) else
    match hash(m + secret)
    case None => None
    case Some(auth) => Some(WithAuth(m, auth))
  }

  function Signed(m: seq<byte>, password: seq<byte>, origin: Origin, secret: seq<byte>, hash: Hash, signer: Signer, msgAuth: bool):
      (r: Option<seq<byte>>)
    requires |m| >= HEADER && Blocks(password) && OriginOk(origin) && HashOk(hash) && SignerOk(signer)
  {
    var auth := Initial(origin);
    if auth.None? then None else
    var m1 := WithPassword(WithAuth(m, auth.value), hash, secret, password);
    if m1.None? then None else
    var m2 := WithMac(m1.value, signer, msgAuth);
    if m2.None? then None else
    WithResponse(m2.value, hash, secret, origin)
  }

  /** One attribute at the front of the input, as the enumerator reads it. */
  predicate HasAttr(s: seq<byte>) {
    |s| >= 2 && 2 <= s[1] <= |s|
  }

  /** The attributes enumerated from bytes; a truncated one ends the enumeration. */
  function Attributes(s: seq<byte>): seq<Attr>
    decreases |s|
  {
    if !HasAttr(s) then [] else [Attr(s[0], s[2..s[1]])] + Attributes(s[s[1]..])
  }

  /** How looking for the Message-Authenticator goes: its position if any, and whether EAP was seen before. */
  datatype Scan = Scan(eap: bool, at: Option<nat>, len: nat)

  function ScanFrom(s: seq<byte>, pos: nat, eap: bool): (r: Scan)
    ensures r.at.Some? ==> pos <= r.at.value && r.at.value + r.len <= pos + |s|
    decreases |s|
  {
    if !HasAttr(s) then Scan(eap, None, 0)
    else if s[0] == MESSAGE_AUTHENTICATOR then Scan(eap, Some(pos + 2), s[1] - 2)
    else ScanFrom(s[s[1]..], pos + s[1], eap || s[0] == EAP_MESSAGE)
  }

  /** The verdict, and the message it leaves behind. */
  datatype Verdict = Verdict(ok: bool, message: seq<byte>)

  function Replaced(m: seq<byte>, reqAuth: Option<seq<byte>>): seq<byte>
    requires |m| >= HEADER && (reqAuth.Some? ==> |reqAuth.value| == HASH_SIZE)
  {
    if m[0] == ACCESS_REQUEST then m else WithAuth(m, if reqAuth.Some? then reqAuth.value else ZEROS)
  }

  function ZeroAt(m: seq<byte>, at: nat): (r: seq<byte>)
    requires at + HASH_SIZE <= |m|
    ensures |r| == |m|
  {
    m[..at] + ZEROS + m[at + HASH_SIZE..]
  }

  function ResponseOk(m: seq<byte>, replaced: seq<byte>, secret: seq<byte>, hash: Hash): bool
    requires |m| >= HEADER
  {
    m[0] == ACCESS_REQUEST || hash(replaced + secret) == Some(m[4..HEADER])
  }

  function Verified(m: seq<byte>, reqAuth: Option<seq<byte>>, secret: seq<byte>, hash: Hash, signer: Signer): Verdict
    requires |m| >= HEADER && (reqAuth.Some? ==> |reqAuth.value| == HASH_SIZE)
  {
    var replaced := Replaced(m, reqAuth);
    if !ResponseOk(m, replaced, secret, hash) then Verdict(false, replaced) else
    var scan := ScanFrom(replaced[HEADER..], HEADER, false);
    if scan.at.None? then Verdict(!scan.eap, m)
    else if scan.len != HASH_SIZE then Verdict(false, replaced)
    else
      var at := scan.at.value;
      var zeroed := ZeroAt(replaced, at);
      if signer.verify(zeroed, replaced[at..at + HASH_SIZE]) then Verdict(true, m) else Verdict(false, zeroed)
  }

  /** Enumerating what was stored returns it. */
  lemma {:induction false} AttributesFlat(attrs: seq<Attr>)
    requires AllShort(attrs)
    ensures Attributes(FlatAll(attrs)) == attrs
  {
    if attrs != [] {
      var s, first, rest := FlatAll(attrs), Flat(attrs[0]), FlatAll(attrs[1..]);
      AttributesFlat(attrs[1..]);
      assert s[..|first|] == first && s[|first|..] == rest;
      assert s[2..s[1]] == first[2..] == attrs[0].value;
    }
  }

  predicate HasEap(attrs: seq<Attr>) {
    exists i :: 0 <= i < |attrs| && attrs[i].kind == EAP_MESSAGE
  }

  predicate NoAuthenticator(attrs: seq<Attr>) {
    forall i :: 0 <= i < |attrs| ==> attrs[i].kind != MESSAGE_AUTHENTICATOR
  }

  lemma HasEapFirst(attrs: seq<Attr>)
    requires attrs != []
    ensures HasEap(attrs) <==> attrs[0].kind == EAP_MESSAGE || HasEap(attrs[1..])
  {
    var others := attrs[1..];
    assert forall i :: 0 <= i < |others| ==> others[i] == attrs[i + 1];
    if HasEap(attrs) && attrs[0].kind != EAP_MESSAGE {
      var i :| 0 <= i < |attrs| && attrs[i].kind == EAP_MESSAGE;
      assert others[i - 1].kind == EAP_MESSAGE;
    }
  }

  lemma ScanOne(a: Attr, rest: seq<byte>, pos: nat, eap: bool)
    requires Short(a)
    ensures ScanFrom(Flat(a) + rest, pos, eap)
         == if a.kind == MESSAGE_AUTHENTICATOR then Scan(eap, Some(pos + 2), |a.value|)
            else ScanFrom(rest, pos + |Flat(a)|, eap || a.kind == EAP_MESSAGE)
  {
    var first := Flat(a);
    var s := first + rest;
    assert s[0] == first[0] && s[1] == first[1] && s[s[1]..] == rest;
  }

  /** Scanning past attributes that are not Message-Authenticators. */
  lemma {:induction false} ScanPast(attrs: seq<Attr>, tail: seq<byte>, pos: nat, eap: bool)
    requires AllShort(attrs) && NoAuthenticator(attrs)
    ensures ScanFrom(FlatAll(attrs) + tail, pos, eap) == ScanFrom(tail, pos + |FlatAll(attrs)|, eap || HasEap(attrs))
  {
    hide ScanFrom, Flat, HasEap;
    if attrs == [] {
      assert FlatAll(attrs) + tail == tail;
      assert !HasEap([]) by { NoEap(); }
    } else {
      var others := attrs[1..];
      assert FlatAll(attrs) + tail == Flat(attrs[0]) + (FlatAll(others) + tail);
      ScanOne(attrs[0], FlatAll(others) + tail, pos, eap);
      HasEapFirst(attrs);
      ScanPast(others, tail, pos + |Flat(attrs[0])|, eap || attrs[0].kind == EAP_MESSAGE);
    }
  }

  lemma NoEap()
    ensures !HasEap([])
  {
  }

  /** Storing an attribute in a message of known parts. */
  lemma AddedRaw(code: byte, id: byte, auth: seq<byte>, attrs: seq<Attr>, a: Attr)
    requires |auth| == HASH_SIZE && AllShort(attrs) && Short(a)
    ensures AllShort(attrs + [a]) && Added(Raw(code, id, auth, attrs), a) == Raw(code, id, auth, attrs + [a])
  {
    hide U16, Flat;
    FlatSingle(a);
    FlatAppend(attrs, [a]);
    var n := HEADER + |FlatAll(attrs)|;
    var m := Raw(code, id, auth, attrs);
    assert m[..2] == [code, id] && m[4..] == auth + FlatAll(attrs);
  }

  lemma RawParts(code: byte, id: byte, auth: seq<byte>, attrs: seq<Attr>, auth': seq<byte>)
    requires |auth| == |auth'| == HASH_SIZE && AllShort(attrs)
    ensures var m := Raw(code, id, auth, attrs);
            && m[0] == code && m[1] == id && m[2..4] == U16(|m|) && m[4..HEADER] == auth && m[HEADER..] == FlatAll(attrs)
            && WithAuth(m, auth') == Raw(code, id, auth', attrs)
  {
    hide U16;
  }

  /** The attributes after signing, if signing goes through: password and Message-Authenticator come last. */
  function SignedAttrs(code: byte, id: byte, auth: seq<byte>, attrs: seq<Attr>, password: seq<byte>, secret: seq<byte>,
                       hash: Hash, signer: Signer, msgAuth: bool): (r: Option<seq<Attr>>)
    requires |auth| == HASH_SIZE && AllShort(attrs) && Blocks(password) && HashOk(hash) && SignerOk(signer)
    ensures r.Some? ==> AllShort(r.value) && attrs <= r.value
  {
    var sealed := if password == [] then Some([]) else Sealed(hash, secret, auth, password);
    if sealed.None? then None else
    var attrs1 := attrs + if password == [] then [] else [Attr(USER_PASSWORD, Cut(sealed.value))];
    if !msgAuth then Some(attrs1) else
    match signer.sign(Raw(code, id, auth, attrs1 + [Attr(MESSAGE_AUTHENTICATOR, ZEROS)]))
    case None => None
    case Some(sig) => Some(attrs1 + [Attr(MESSAGE_AUTHENTICATOR, sig)])
  }

  lemma WithPasswordRaw(code: byte, id: byte, auth: seq<byte>, attrs: seq<Attr>, password: seq<byte>, secret: seq<byte>, hash: Hash)
    requires |auth| == HASH_SIZE && AllShort(attrs) && Blocks(password) && HashOk(hash)
    ensures WithPassword(Raw(code, id, auth, attrs), hash, secret, password)
         == if password == [] then Some(Raw(code, id, auth, attrs))
            else match Sealed(hash, secret, auth, password)
                 case None => None
                 case Some(c) => Some(Raw(code, id, auth, attrs + [Attr(USER_PASSWORD, Cut(c))]))
  {
    hide Raw, Added, HashOk, Sealed;
    RawParts(code, id, auth, attrs, auth);
    if password != [] && Sealed(hash, secret, auth, password).Some? {
      AddedRaw(code, id, auth, attrs, Attr(USER_PASSWORD, Cut(Sealed(hash, secret, auth, password).value)));
    }
  }

  lemma WithMacRaw(code: byte, id: byte, auth: seq<byte>, attrs: seq<Attr>, signer: Signer)
    requires |auth| == HASH_SIZE && AllShort(attrs) && SignerOk(signer)
    ensures WithMac(Raw(code, id, auth, attrs), signer, true)
         == match signer.sign(Raw(code, id, auth, attrs + [Attr(MESSAGE_AUTHENTICATOR, ZEROS)]))
            case None => None
            case Some(sig) => Some(Raw(code, id, auth, attrs + [Attr(MESSAGE_AUTHENTICATOR, sig)]))
  {
    hide Raw, Added;
    AddedRaw(code, id, auth, attrs, Attr(MESSAGE_AUTHENTICATOR, ZEROS));
    match signer.sign(Raw(code, id, auth, attrs + [Attr(MESSAGE_AUTHENTICATOR, ZEROS)])) {
      case None =>
      case Some(sig) =>
        LastValue(code, id, auth, attrs, ZEROS, sig);
    }
  }

  /** Exchanging the value of a 16 byte attribute at the end. */
  lemma LastValue(code: byte, id: byte, auth: seq<byte>, attrs: seq<Attr>, v: seq<byte>, v': seq<byte>)
    requires |auth| == HASH_SIZE && AllShort(attrs) && |v| == |v'| == HASH_SIZE
    ensures var m := Raw(code, id, auth, attrs + [Attr(MESSAGE_AUTHENTICATOR, v)]);
            && |m| >= HEADER + HASH_SIZE && m[|m| - HASH_SIZE..] == v
            && m[..|m| - HASH_SIZE] + v' == Raw(code, id, auth, attrs + [Attr(MESSAGE_AUTHENTICATOR, v')])
            && m[HEADER..] == FlatAll(attrs) + Flat(Attr(MESSAGE_AUTHENTICATOR, v))
            && |m| == HEADER + |FlatAll(attrs)| + 2 + HASH_SIZE
  {
    RawLast(code, id, auth, attrs, v);
    RawLast(code, id, auth, attrs, v');
    RawParts(code, id, auth, attrs + [Attr(MESSAGE_AUTHENTICATOR, v)], auth);
    FlatSingle(Attr(MESSAGE_AUTHENTICATOR, v));
    FlatAppend(attrs, [Attr(MESSAGE_AUTHENTICATOR, v)]);
    hide Raw, Stem, FlatAll;
    var stem := Stem(code, id, auth, attrs);
    assert (stem + v)[..|stem|] == stem && (stem + v)[|stem|..] == v;
  }

  /** A message that ends in a Message-Authenticator, up to its value. */
  function Stem(code: byte, id: byte, auth: seq<byte>, attrs: seq<Attr>): (s: seq<byte>)
    requires |auth| == HASH_SIZE && AllShort(attrs)
    ensures |s| == HEADER + |FlatAll(attrs)| + 2
  {
    [code, id] + U16(HEADER + |FlatAll(attrs)| + 2 + HASH_SIZE) + auth + (FlatAll(attrs) + [MESSAGE_AUTHENTICATOR, 18])
  }

  lemma RawLast(code: byte, id: byte, auth: seq<byte>, attrs: seq<Attr>, v: seq<byte>)
    requires |auth| == HASH_SIZE && AllShort(attrs) && |v| == HASH_SIZE
    ensures Raw(code, id, auth, attrs + [Attr(MESSAGE_AUTHENTICATOR, v)]) == Stem(code, id, auth, attrs) + v
  {
    var a := Attr(MESSAGE_AUTHENTICATOR, v);
    FlatSingle(a);
    FlatAppend(attrs, [a]);
    hide FlatAll, U16;
    assert FlatAll(attrs + [a]) == (FlatAll(attrs) + [MESSAGE_AUTHENTICATOR, 18]) + v;
  }

  /** The message signed, as its parts. */
  function SignedParts(code: byte, id: byte, attrs: seq<Attr>, password: seq<byte>, origin: Origin,
                       secret: seq<byte>, hash: Hash, signer: Signer, msgAuth: bool): Option<seq<byte>>
    requires AllShort(attrs) && Blocks(password) && OriginOk(origin) && HashOk(hash) && SignerOk(signer)
  {
    match Initial(origin)
    case None => None
    case Some(first) =>
      match SignedAttrs(code, id, first, attrs, password, secret, hash, signer, msgAuth)
      case None => None
      case Some(all) => WithResponse(Raw(code, id, first, all), hash, secret, origin)
  }

  lemma SignedRaw(code: byte, id: byte, auth: seq<byte>, attrs: seq<Attr>, password: seq<byte>, origin: Origin,
                  secret: seq<byte>, hash: Hash, signer: Signer, msgAuth: bool)
    requires |auth| == HASH_SIZE && AllShort(attrs) && Blocks(password)
    requires OriginOk(origin) && HashOk(hash) && SignerOk(signer)
    ensures Signed(Raw(code, id, auth, attrs), password, origin, secret, hash, signer, msgAuth)
         == SignedParts(code, id, attrs, password, origin, secret, hash, signer, msgAuth)
  {
    hide Raw, WithMac, WithPassword, WithResponse, Sealed, HashOk, SignerOk, Cut;
    match Initial(origin) {
      case None =>
      case Some(first) =>
        RawParts(code, id, auth, attrs, first);
        WithPasswordRaw(code, id, first, attrs, password, secret, hash);
        assert attrs + [] == attrs;
        var m1 := WithPassword(Raw(code, id, first, attrs), hash, secret, password);
        if m1.Some? {
          var attrs1 := attrs + if password == [] then [] else [Attr(USER_PASSWORD, Cut(Sealed(hash, secret, first, password).value))];
          if msgAuth {
            WithMacRaw(code, id, first, attrs1, signer);
          } else {
            NoMac(m1.value, signer);
          }
        }
    }
  }

  lemma NoMac(m: seq<byte>, signer: Signer)
    requires |m| >= HEADER && SignerOk(signer)
    ensures WithMac(m, signer, false) == Some(m)
  {
  }

  /** The request authenticator the verifier uses is the one the signer used. */
  predicate SameRequest(origin: Origin, reqAuth: Option<seq<byte>>) {
    match origin
    case Random(_) => true
    case Request(auth) => reqAuth == Some(auth)
    case Zero => reqAuth == None
  }

  /** Verifying restores what it replaced: the message before the Response-Authenticator came in. */
  lemma ReplacedIsSigned(code: byte, id: byte, attrs: seq<Attr>, origin: Origin, reqAuth: Option<seq<byte>>,
                         secret: seq<byte>, hash: Hash)
    requires AllShort(attrs) && OriginOk(origin) && HashOk(hash) && Initial(origin).Some?
    requires (origin.Random? <==> code == ACCESS_REQUEST) && SameRequest(origin, reqAuth)
    requires reqAuth.Some? ==> |reqAuth.value| == HASH_SIZE
    requires WithResponse(Raw(code, id, Initial(origin).value, attrs), hash, secret, origin).Some?
    ensures var before := Raw(code, id, Initial(origin).value, attrs);
            var m := WithResponse(before, hash, secret, origin).value;
            && Replaced(m, reqAuth) == before && ResponseOk(m, before, secret, hash)
            && m[HEADER..] == FlatAll(attrs) && m[2..4] == U16(|m|) && |m| == |before|
  {
    hide Raw, U16, FlatAll;
    var first := Initial(origin).value;
    var before := Raw(code, id, first, attrs);
    RawParts(code, id, first, attrs, first);
    if !origin.Random? {
      var auth := hash(before + secret).value;
      RawParts(code, id, first, attrs, auth);
      RawParts(code, id, auth, attrs, first);
    }
  }

  /** Verifying the Message-Authenticator of a signed message. */
  lemma MacVerifies(code: byte, id: byte, auth: seq<byte>, attrs: seq<Attr>, signer: Signer, sig: seq<byte>)
    requires |auth| == HASH_SIZE && AllShort(attrs) && NoAuthenticator(attrs) && SignerSound(signer) && |sig| == HASH_SIZE
    requires signer.sign(Raw(code, id, auth, attrs + [Attr(MESSAGE_AUTHENTICATOR, ZEROS)])) == Some(sig)
    ensures var m := Raw(code, id, auth, attrs + [Attr(MESSAGE_AUTHENTICATOR, sig)]);
            var scan := ScanFrom(m[HEADER..], HEADER, false);
            && scan.at == Some(|m| - HASH_SIZE) && scan.len == HASH_SIZE && |m| >= HASH_SIZE
            && signer.verify(ZeroAt(m, |m| - HASH_SIZE), m[|m| - HASH_SIZE..])
  {
    hide Raw, FlatAll, ScanFrom, Flat;
    var last := Attr(MESSAGE_AUTHENTICATOR, sig);
    LastValue(code, id, auth, attrs, sig, ZEROS);
    ScanPast(attrs, Flat(last), HEADER, false);
    assert Flat(last) + [] == Flat(last);
    ScanOne(last, [], HEADER + |FlatAll(attrs)|, HasEap(attrs));
    var m := Raw(code, id, auth, attrs + [last]);
    assert ZeroAt(m, |m| - HASH_SIZE) == m[..|m| - HASH_SIZE] + ZEROS;
  }

  /** The verdict on a signed message, and that it is left as it was. */
  ghost predicate Survives(m: seq<byte>, attrs: seq<Attr>, reqAuth: Option<seq<byte>>, secret: seq<byte>, hash: Hash,
                           signer: Signer, accepted: bool)
    requires reqAuth.Some? ==> |reqAuth.value| == HASH_SIZE
  {
    && WellFormed(m) && Attributes(m[HEADER..]) == attrs
    && Verified(m, reqAuth, secret, hash, signer) == Verdict(accepted, m)
  }

  /**
   * End to end: a message built without a Message-Authenticator, signed and
   * parsed again, enumerates its attributes in order with the password and the
   * Message-Authenticator at the end; it passes verification, which leaves it
   * unchanged, exactly if it has a Message-Authenticator or no EAP-Message.
   */
  lemma SignedVerifies(code: byte, id: byte, auth: seq<byte>, attrs: seq<Attr>, password: seq<byte>, origin: Origin,
                       reqAuth: Option<seq<byte>>, secret: seq<byte>, hash: Hash, signer: Signer, msgAuth: bool)
    requires |auth| == HASH_SIZE && AllShort(attrs) && NoAuthenticator(attrs) && Blocks(password)
    requires OriginOk(origin) && HashOk(hash) && SignerOk(signer) && SignerSound(signer)
    requires (origin.Random? <==> code == ACCESS_REQUEST) && SameRequest(origin, reqAuth)
    requires reqAuth.Some? ==> |reqAuth.value| == HASH_SIZE
    requires HEADER + |FlatAll(attrs)| + Growth(password, msgAuth) <= MAX_MESSAGE
    requires Signed(Raw(code, id, auth, attrs), password, origin, secret, hash, signer, msgAuth).Some?
    ensures Initial(origin).Some?
    ensures SignedAttrs(code, id, Initial(origin).value, attrs, password, secret, hash, signer, msgAuth).Some?
    ensures var m := Signed(Raw(code, id, auth, attrs), password, origin, secret, hash, signer, msgAuth).value;
            var all := SignedAttrs(code, id, Initial(origin).value, attrs, password, secret, hash, signer, msgAuth).value;
            Survives(m, all, reqAuth, secret, hash, signer, msgAuth || !HasEap(attrs))
  {
    hide Signed, Raw, WithResponse, Replaced, ResponseOk, FlatAll, ScanFrom, HasEap, NoAuthenticator, U16, FromU16, HashOk,
         SignerOk, SignerSound, ZeroAt, SignedAttrs, Attributes, Growth;
    SignedRaw(code, id, auth, attrs, password, origin, secret, hash, signer, msgAuth);
    var first := Initial(origin).value;
    var all := SignedAttrs(code, id, first, attrs, password, secret, hash, signer, msgAuth).value;
    var before := Raw(code, id, first, all);
    ReplacedIsSigned(code, id, all, origin, reqAuth, secret, hash);
    RawParts(code, id, first, all, first);
    AttributesFlat(all);
    SignedSize(code, id, first, attrs, password, secret, hash, signer, msgAuth);
    U16RoundTrip(|before|);
    SignedScan(code, id, first, attrs, password, secret, hash, signer, msgAuth);
    if msgAuth {
      assert before[|before| - HASH_SIZE..] == before[|before| - HASH_SIZE..|before|];
    }
  }

  lemma SignedSize(code: byte, id: byte, auth: seq<byte>, attrs: seq<Attr>, password: seq<byte>, secret: seq<byte>,
                   hash: Hash, signer: Signer, msgAuth: bool)
    requires |auth| == HASH_SIZE && AllShort(attrs) && Blocks(password) && HashOk(hash) && SignerOk(signer)
    requires SignedAttrs(code, id, auth, attrs, password, secret, hash, signer, msgAuth).Some?
    ensures |FlatAll(SignedAttrs(code, id, auth, attrs, password, secret, hash, signer, msgAuth).value)|
         == |FlatAll(attrs)| + Growth(password, msgAuth)
  {
    hide Raw, Sealed, HashOk, FlatAll, Flat;
    var sealed := if password == [] then Some([]) else Sealed(hash, secret, auth, password);
    var a := Attr(USER_PASSWORD, Cut(sealed.value));
    var attrs1 := attrs + if password == [] then [] else [a];
    if password != [] {
      FlatSingle(a);
      FlatAppend(attrs, [a]);
    } else {
      assert attrs + [] == attrs;
    }
    if msgAuth {
      var sig := signer.sign(Raw(code, id, auth, attrs1 + [Attr(MESSAGE_AUTHENTICATOR, ZEROS)])).value;
      var b := Attr(MESSAGE_AUTHENTICATOR, sig);
      FlatSingle(b);
      FlatAppend(attrs1, [b]);
    }
  }

  /** What scanning a signed message finds. */
  lemma SignedScan(code: byte, id: byte, auth: seq<byte>, attrs: seq<Attr>, password: seq<byte>, secret: seq<byte>,
                   hash: Hash, signer: Signer, msgAuth: bool)
    requires |auth| == HASH_SIZE && AllShort(attrs) && NoAuthenticator(attrs) && Blocks(password)
    requires HashOk(hash) && SignerOk(signer) && SignerSound(signer)
    requires SignedAttrs(code, id, auth, attrs, password, secret, hash, signer, msgAuth).Some?
    ensures var m := Raw(code, id, auth, SignedAttrs(code, id, auth, attrs, password, secret, hash, signer, msgAuth).value);
            var scan := ScanFrom(m[HEADER..], HEADER, false);
            if msgAuth then
              && scan.at == Some(|m| - HASH_SIZE) && scan.len == HASH_SIZE && |m| >= HASH_SIZE
              && signer.verify(ZeroAt(m, |m| - HASH_SIZE), m[|m| - HASH_SIZE..])
            else scan.at == None && scan.eap == HasEap(attrs)
  {
    hide Raw, Sealed, HashOk, FlatAll, Flat, ScanFrom, HasEap, SignerSound, ZeroAt, Cut;
    var sealed := if password == [] then Some([]) else Sealed(hash, secret, auth, password);
    var attrs1 := attrs + if password == [] then [] else [Attr(USER_PASSWORD, Cut(sealed.value))];
    PasswordIsNoEap(attrs, attrs1);
    if msgAuth {
      var sig := signer.sign(Raw(code, id, auth, attrs1 + [Attr(MESSAGE_AUTHENTICATOR, ZEROS)])).value;
      MacVerifies(code, id, auth, attrs1, signer, sig);
    } else {
      RawParts(code, id, auth, attrs1, auth);
      ScanPast(attrs1, [], HEADER, false);
      assert FlatAll(attrs1) + [] == FlatAll(attrs1);
      ScanEmpty(HEADER + |FlatAll(attrs1)|, HasEap(attrs1));
    }
  }

  lemma ScanEmpty(pos: nat, eap: bool)
    ensures ScanFrom([], pos, eap) == Scan(eap, None, 0)
  {
  }

  lemma PasswordIsNoEap(attrs: seq<Attr>, attrs1: seq<Attr>)
    requires attrs1 == attrs || (|attrs1| == |attrs| + 1 && attrs <= attrs1 && attrs1[|attrs|].kind == USER_PASSWORD)
    requires NoAuthenticator(attrs)
    ensures NoAuthenticator(attrs1) && (HasEap(attrs1) <==> HasEap(attrs))
  {
    if HasEap(attrs) {
      var i :| 0 <= i < |attrs| && attrs[i].kind == EAP_MESSAGE;
      assert attrs1[i].kind == EAP_MESSAGE;
    }
  }

  /** What scanning any bytes says about the attributes enumerated from them. */
  lemma {:induction false} ScanSound(s: seq<byte>, pos: nat, eap: bool)
    ensures var scan := ScanFrom(s, pos, eap);
            && (scan.at.None? <==> NoAuthenticator(Attributes(s)))
            && (scan.at.None? ==> (scan.eap <==> eap || HasEap(Attributes(s))))
    decreases |s|
  {
    hide HasEap, NoAuthenticator;
    if !HasAttr(s) {
      NoEap();
      assert NoAuthenticator([]) by { NoneAtAll(); }
    } else {
      var rest := s[s[1]..];
      ScanSound(rest, pos + s[1], eap || s[0] == EAP_MESSAGE);
      var attrs := Attributes(s);
      assert attrs[0].kind == s[0] && attrs[1..] == Attributes(rest);
      HasEapFirst(attrs);
      NoAuthenticatorFirst(attrs);
    }
  }

  lemma NoneAtAll()
    ensures NoAuthenticator([])
  {
  }

  lemma NoAuthenticatorFirst(attrs: seq<Attr>)
    requires attrs != []
    ensures NoAuthenticator(attrs) <==> attrs[0].kind != MESSAGE_AUTHENTICATOR && NoAuthenticator(attrs[1..])
  {
    assert forall i :: 0 < i < |attrs| ==> attrs[i] == attrs[1..][i - 1];
  }

  /** Where the value of the k-th attribute starts. */
  function ValueAt(attrs: seq<Attr>, k: nat): nat
    requires k < |attrs|
  {
    2 + if k == 0 then 0 else |attrs[0].value| + ValueAt(attrs[1..], k - 1)
  }

  predicate IsFirstMac(attrs: seq<Attr>, k: nat) {
    k < |attrs| && attrs[k].kind == MESSAGE_AUTHENTICATOR && NoAuthenticator(attrs[..k])
  }

  /** One attribute read off the front. */
  lemma ReadFirst(s: seq<byte>, pos: nat, eap: bool)
    requires Attributes(s) != []
    ensures HasAttr(s) && Attributes(s) == [Attr(s[0], s[2..s[1]])] + Attributes(s[s[1]..])
    ensures ScanFrom(s, pos, eap) == if s[0] == MESSAGE_AUTHENTICATOR then Scan(eap, Some(pos + 2), s[1] - 2)
                                     else ScanFrom(s[s[1]..], pos + s[1], eap || s[0] == EAP_MESSAGE)
  {
  }

  lemma FirstMacBehind(first: Attr, attrs: seq<Attr>, k: nat)
    requires IsFirstMac([first] + attrs, k) && k > 0
    ensures first.kind != MESSAGE_AUTHENTICATOR && IsFirstMac(attrs, k - 1)
  {
    var all := [first] + attrs;
    assert all[..k][0] == first && all[..k][1..] == attrs[..k - 1];
    NoAuthenticatorFirst(all[..k]);
  }

  /** The scan has stopped at the value of attribute k of bytes at a position. */
  predicate Finds(s: seq<byte>, pos: nat, scan: Scan, attrs: seq<Attr>, k: nat) {
    k < |attrs| &&
    var at := ValueAt(attrs, k);
    && scan.at == Some(pos + at) && scan.len == |attrs[k].value|
    && at + scan.len <= |s| && s[at..at + scan.len] == attrs[k].value
  }

  lemma FindsBehind(s: seq<byte>, n: nat, pos: nat, scan: Scan, first: Attr, attrs: seq<Attr>, k: nat)
    requires 2 + |first.value| == n <= |s| && Finds(s[n..], pos + n, scan, attrs, k)
    ensures Finds(s, pos, scan, [first] + attrs, k + 1)
  {
    var all, at := [first] + attrs, ValueAt(attrs, k);
    assert all[1..] == attrs && all[k + 1] == attrs[k] && ValueAt(all, k + 1) == n + at;
    hide ValueAt;
    assert s[n..][at..at + scan.len] == s[n + at..n + at + scan.len];
  }

  /** What scanning any bytes stops at is the value of the first Message-Authenticator enumerated from them. */
  lemma {:induction false} ScanFinds(s: seq<byte>, pos: nat, eap: bool, k: nat)
    requires IsFirstMac(Attributes(s), k)
    ensures Finds(s, pos, ScanFrom(s, pos, eap), Attributes(s), k)
    decreases |s|
  {
    ReadFirst(s, pos, eap);
    hide ScanFrom, Attributes, NoAuthenticator;
    if k > 0 {
      hide Finds;
      var (n, first) := (s[1], Attr(s[0], s[2..s[1]]));
      FirstMacBehind(first, Attributes(s[n..]), k);
      ScanFinds(s[n..], pos + n, eap || s[0] == EAP_MESSAGE, k - 1);
      FindsBehind(s, n, pos, ScanFrom(s, pos, eap), first, Attributes(s[n..]), k - 1);
    }
  }

  /** Where there is a Message-Authenticator there is a first one. */
  lemma {:induction false} FirstMac(attrs: seq<Attr>) returns (k: nat)
    requires !NoAuthenticator(attrs)
    ensures IsFirstMac(attrs, k)
  {
    if attrs[0].kind == MESSAGE_AUTHENTICATOR {
      k := 0;
    } else {
      NoAuthenticatorFirst(attrs);
      var j := FirstMac(attrs[1..]);
      k := j + 1;
      assert attrs[..k][0] == attrs[0] && attrs[..k][1..] == attrs[1..][..j];
      NoAuthenticatorFirst(attrs[..k]);
    }
  }

  /** The k-th attribute is the first Message-Authenticator, and right for the message with its value zeroed. */
  ghost predicate RightMac(m: seq<byte>, reqAuth: Option<seq<byte>>, signer: Signer, k: nat)
    requires |m| >= HEADER && (reqAuth.Some? ==> |reqAuth.value| == HASH_SIZE)
  {
    var attrs := Attributes(m[HEADER..]);
    && IsFirstMac(attrs, k) && |attrs[k].value| == HASH_SIZE
    && var at := HEADER + ValueAt(attrs, k);
       && at + HASH_SIZE <= |m| && m[at..at + HASH_SIZE] == attrs[k].value
       && |Replaced(m, reqAuth)| == |m| && signer.verify(ZeroAt(Replaced(m, reqAuth), at), attrs[k].value)
  }

  /**
   * What acceptance of any message means, and when it comes: a response carries
   * the right Response-Authenticator, and the first Message-Authenticator is
   * right, or there is none and no EAP-Message either. The message is unchanged.
   */
  lemma VerifiedIff(m: seq<byte>, reqAuth: Option<seq<byte>>, secret: seq<byte>, hash: Hash, signer: Signer)
    requires |m| >= HEADER && (reqAuth.Some? ==> |reqAuth.value| == HASH_SIZE)
    ensures var attrs := Attributes(m[HEADER..]);
            Verified(m, reqAuth, secret, hash, signer).ok <==>
              && (m[0] != ACCESS_REQUEST ==> hash(Replaced(m, reqAuth) + secret) == Some(m[4..HEADER]))
              && if NoAuthenticator(attrs) then !HasEap(attrs) else exists k :: RightMac(m, reqAuth, signer, k)
    ensures Verified(m, reqAuth, secret, hash, signer).ok ==> Verified(m, reqAuth, secret, hash, signer).message == m
  {
    hide ScanFrom, Attributes, HasEap, NoAuthenticator, ZeroAt, ValueAt;
    var attrs, replaced := Attributes(m[HEADER..]), Replaced(m, reqAuth);
    assert |replaced| == |m| && replaced[HEADER..] == m[HEADER..];
    ScanSound(m[HEADER..], HEADER, false);
    if !NoAuthenticator(attrs) {
      var k := FirstMac(attrs);
      FirstMacDecides(m, reqAuth, signer, k);
      if exists j :: RightMac(m, reqAuth, signer, j) {
        var j :| RightMac(m, reqAuth, signer, j);
        FirstMacUnique(attrs, j, k);
      }
    }
  }

  /** The check of the place scanned is the check of the first Message-Authenticator. */
  lemma FirstMacDecides(m: seq<byte>, reqAuth: Option<seq<byte>>, signer: Signer, k: nat)
    requires |m| >= HEADER && (reqAuth.Some? ==> |reqAuth.value| == HASH_SIZE)
    requires |Replaced(m, reqAuth)| == |m| && Replaced(m, reqAuth)[HEADER..] == m[HEADER..]
    requires IsFirstMac(Attributes(m[HEADER..]), k)
    ensures var (scan, replaced) := (ScanFrom(m[HEADER..], HEADER, false), Replaced(m, reqAuth));
            && scan.at.Some?
            && (RightMac(m, reqAuth, signer, k) <==>
                  && scan.len == HASH_SIZE
                  && signer.verify(ZeroAt(replaced, scan.at.value), replaced[scan.at.value..scan.at.value + HASH_SIZE]))
  {
    hide ScanFrom, Attributes, NoAuthenticator, ZeroAt, ValueAt, Replaced;
    var body, replaced := m[HEADER..], Replaced(m, reqAuth);
    ScanFinds(body, HEADER, false, k);
    var scan := ScanFrom(body, HEADER, false);
    var at := scan.at.value;
    if scan.len == HASH_SIZE {
      assert m[at..at + HASH_SIZE] == body[at - HEADER..at - HEADER + HASH_SIZE];
      assert replaced[at..at + HASH_SIZE] == replaced[HEADER..][at - HEADER..at - HEADER + HASH_SIZE];
    }
  }

  lemma FirstMacUnique(attrs: seq<Attr>, j: nat, k: nat)
    requires IsFirstMac(attrs, j) && IsFirstMac(attrs, k)
    ensures j == k
  {
  }

  /** The addition is the first password: it is remembered and not stored. */
  predicate SetAside(a: Attr, password: seq<byte>) {
    a.kind == USER_PASSWORD && password == []
  }

  /** What a sequence of additions puts into the message: every value cut, except for the password set aside. */
  function Kept(adds: seq<Attr>, password: seq<byte>): (attrs: seq<Attr>)
    ensures AllShort(attrs)
    decreases |adds|
  {
    if adds == [] then []
    else if SetAside(adds[0], password) then Kept(adds[1..], Padded(adds[0].value))
    else [Attr(adds[0].kind, Cut(adds[0].value))] + Kept(adds[1..], password)
  }

  /** The password remembered after them. */
  function Remembered(adds: seq<Attr>, password: seq<byte>): (r: seq<byte>)
    ensures Blocks(password) ==> Blocks(r)
    decreases |adds|
  {
    if adds == [] then password
    else Remembered(adds[1..], if SetAside(adds[0], password) then Padded(adds[0].value) else password)
  }

  function Cuts(adds: seq<Attr>): seq<Attr> {
    if adds == [] then [] else [Attr(adds[0].kind, Cut(adds[0].value))] + Cuts(adds[1..])
  }

  predicate NoPassword(adds: seq<Attr>) {
    forall i :: 0 <= i < |adds| ==> adds[i].kind != USER_PASSWORD
  }

  /** Without a password, or with one remembered already, all attributes are stored in order, cut at 253 bytes. */
  lemma {:induction false} KeptPlain(adds: seq<Attr>, password: seq<byte>)
    requires NoPassword(adds) || password != []
    ensures Kept(adds, password) == Cuts(adds) && Remembered(adds, password) == password
    decreases |adds|
  {
    if adds != [] {
      KeptPlain(adds[1..], password);
    }
  }

  /**
   * The first password is set aside, filled up with zeros, and everything else
   * is stored in order, cut at 253 bytes; an empty one is forgotten, and what
   * follows goes on as without it.
   */
  lemma {:induction false} KeptWithPassword(before: seq<Attr>, secret: seq<byte>, after: seq<Attr>)
    requires NoPassword(before)
    ensures var adds := before + [Attr(USER_PASSWORD, secret)] + after;
            if secret != [] then Kept(adds, []) == Cuts(before + after) && Remembered(adds, []) == Padded(secret)
            else Kept(adds, []) == Cuts(before) + Kept(after, []) && Remembered(adds, []) == Remembered(after, [])
    decreases |before|
  {
    var adds := before + [Attr(USER_PASSWORD, secret)] + after;
    if before == [] {
      assert adds[1..] == after && before + after == after;
      if secret != [] {
        KeptPlain(after, Padded(secret));
      } else {
        assert Padded([]) == [] && Cuts([]) + Kept(after, []) == Kept(after, []);
      }
    } else {
      assert adds[1..] == before[1..] + [Attr(USER_PASSWORD, secret)] + after;
      assert (before + after)[1..] == before[1..] + after;
      KeptWithPassword(before[1..], secret, after);
    }
  }

  /** Cutting changes no kind, so messages built without a Message-Authenticator have none. */
  lemma {:induction false} KeptKinds(adds: seq<Attr>, password: seq<byte>)
    requires NoAuthenticator(adds)
    ensures NoAuthenticator(Kept(adds, password))
    decreases |adds|
  {
    if adds != [] {
      NoAuthenticatorFirst(adds);
      var next := if SetAside(adds[0], password) then Padded(adds[0].value) else password;
      KeptKinds(adds[1..], next);
      if !SetAside(adds[0], password) {
        NoAuthenticatorFirst(Kept(adds, password));
        assert Kept(adds, password)[1..] == Kept(adds[1..], password);
      }
    }
  }

  // ----- the message on the wire

  /** Code, identifier, length and authenticator in front of the attributes. */
  lemma RawLayout(code: byte, id: byte, auth: seq<byte>, attrs: seq<Attr>)
    requires |auth| == HASH_SIZE && AllShort(attrs) && |Raw(code, id, auth, attrs)| < 65536
    ensures var m := Raw(code, id, auth, attrs);
            && m[0] == code && m[1] == id && (m[2] as int) * 256 + m[3] == |m| && m[4..20] == auth && m[20..] == FlatAll(attrs)
  {
    RawParts(code, id, auth, attrs, auth);
    U16RoundTrip(|Raw(code, id, auth, attrs)|);
    hide Raw;
    var m := Raw(code, id, auth, attrs);
    assert m[2..4] == [m[2], m[3]];
  }

  /** Kind, length of the whole attribute, value. */
  lemma FlatLayout(a: Attr)
    requires Short(a)
    ensures Flat(a)[0] == a.kind && Flat(a)[1] == |Flat(a)| && Flat(a)[2..] == a.value
  {
  }

  /** A password is filled up with as few zeros as make whole blocks. */
  lemma PaddedIs(data: seq<byte>)
    ensures var p := Padded(data);
            && data <= p && |p| % 16 == 0 && |p| - |data| < 16 && forall i :: |data| <= i < |p| ==> p[i] == 0
  {
  }

  /** Every block of the password goes out xored with a hash of the secret and the block sent before it, the first with the authenticator. */
  lemma PasswordOnWire(hash: Hash, secret: seq<byte>, auth: seq<byte>, password: seq<byte>, i: nat)
    requires HashOk(hash) && Blocks(password) && Sealed(hash, secret, auth, password).Some? && 16 * i + 16 <= |password|
    ensures var c := Sealed(hash, secret, auth, password).value;
            match hash(secret + if i == 0 then auth else c[16 * i - 16..16 * i])
            case None => false
            case Some(key) => |key| == 16 && c[16 * i..16 * i + 16] == Xor(password[16 * i..16 * i + 16], key)
  {
    hide Xor;
    assert Seed(secret, auth, []) == secret + auth;
    var key := hash(secret + auth).value;
    HashSize(hash, secret + auth);
    EncryptedIsChain(hash, secret, key, password, i);
  }

  /**
   * What a refused message looks like afterwards: a response has the request's
   * authenticator, or zeros, in place of its own; and if it got as far as a
   * Message-Authenticator of 16 bytes, that one is zeroed.
   */
  lemma RefusedLeaves(m: seq<byte>, reqAuth: Option<seq<byte>>, secret: seq<byte>, hash: Hash, signer: Signer, k: nat)
    requires |m| >= HEADER && (reqAuth.Some? ==> |reqAuth.value| == HASH_SIZE)
    requires !Verified(m, reqAuth, secret, hash, signer).ok && IsFirstMac(Attributes(m[HEADER..]), k)
    ensures var auth := if m[0] == 1 then m[4..20] else if reqAuth.Some? then reqAuth.value else Fill(0, 16);
            var replaced := m[..4] + auth + m[20..];
            var at := 20 + ValueAt(Attributes(m[20..]), k);
            var left := Verified(m, reqAuth, secret, hash, signer).message;
            if (m[0] != 1 && hash(replaced + secret) != Some(m[4..20])) || |Attributes(m[20..])[k].value| != 16 then left == replaced
            else at + 16 <= |m| && left == replaced[..at] + Fill(0, 16) + replaced[at + 16..]
  {
    hide ScanFrom, Attributes, NoAuthenticator, ValueAt;
    ReplacedIs(m, reqAuth);
    ScanFinds(m[HEADER..], HEADER, false, k);
    hide Replaced;
  }

  lemma ReplacedIs(m: seq<byte>, reqAuth: Option<seq<byte>>)
    requires |m| >= HEADER && (reqAuth.Some? ==> |reqAuth.value| == HASH_SIZE)
    ensures var auth := if m[0] == 1 then m[4..20] else if reqAuth.Some? then reqAuth.value else Fill(0, 16);
            && Replaced(m, reqAuth) == m[..4] + auth + m[20..] && |Replaced(m, reqAuth)| == |m|
            && Replaced(m, reqAuth)[20..] == m[20..]
  {
    assert m == m[..4] + m[4..20] + m[20..];
  }

  /** Without a Message-Authenticator: the authenticator is put back unless it was wrong. */
  lemma RefusedWithoutMac(m: seq<byte>, reqAuth: Option<seq<byte>>, secret: seq<byte>, hash: Hash, signer: Signer)
    requires |m| >= HEADER && (reqAuth.Some? ==> |reqAuth.value| == HASH_SIZE)
    requires !Verified(m, reqAuth, secret, hash, signer).ok && NoAuthenticator(Attributes(m[HEADER..]))
    ensures var replaced := m[..4] + (if m[0] == 1 then m[4..20] else if reqAuth.Some? then reqAuth.value else Fill(0, 16)) + m[20..];
            Verified(m, reqAuth, secret, hash, signer).message ==
            if m[0] != 1 && hash(replaced + secret) != Some(m[4..20]) then replaced else m
  {
    hide ScanFrom, Attributes, NoAuthenticator;
    ReplacedIs(m, reqAuth);
    hide Replaced;
    ScanSound(m[HEADER..], HEADER, false);
  }
}
