/** The RADIUS message object and its attribute enumerator. */
module RadiusCodec {
  import opened Bytes
  import opened RadiusCrypt
  import opened RadiusMessage

  /** Walks over the attributes of a message. */
  class Enumerator {
    const msg: array<byte>
    var next: nat
    var left: nat

    ghost predicate Valid()
      reads this
    {
      next + left == msg.Length
    }

    /** The bytes not enumerated yet. */
    ghost function Rest(): seq<byte>
      requires Valid()
      reads this, msg
    {
      msg[next..]
    }

    constructor (msg: array<byte>)
      requires msg.Length >= HEADER
      ensures this.msg == msg && Valid() && next == HEADER
    {
      this.msg := msg;
      next, left := HEADER, msg.Length - HEADER;
    }

    /** The type of the next attribute, and where in the message its value is. */
    method Enumerate() returns (found: bool, kind: byte, at: nat, len: nat)
      requires Valid()
      modifies this
      ensures Valid() && found == old(HasAttr(Rest()))
      ensures found ==> && at == old(next) + 2 && at + len == next <= msg.Length
                        && kind == msg[old(next)] && len == msg[old(next) + 1] - 2
                        && old(Attributes(Rest())) == [Attr(kind, msg[at..at + len])] + Attributes(Rest())
      ensures !found ==> old(Attributes(Rest())) == [] && next == old(next)
    {
      found, kind, at, len := false, 0, 0, 0;
      ghost var rest := Rest();
      if left == 0 || left < 2 || left < msg[next + 1] || msg[next + 1] < 2 {
        return;
      }
      assert rest[0] == msg[next] && rest[1] == msg[next + 1];
      found, kind, at, len := true, msg[next], next + 2, msg[next + 1] - 2;
      left := left - msg[next + 1];
      next := next + msg[next + 1];
      assert rest[2..rest[1]] == msg[at..at + len] && rest[rest[1]..] == Rest();
    }
  }

  class Message {
    var msg: array<byte>
    /** The User-Password to encrypt when signing, if any. */
    var password: array<byte>

    ghost predicate Valid()
      reads this, msg, password
    {
      msg != password && msg.Length <= MAX_MESSAGE && WellFormed(msg[..]) && Blocks(password[..])
    }

    constructor (code: byte)
      ensures Valid() && fresh(msg) && fresh(password)
      ensures AllShort([]) && msg[..] == Raw(code, 0, ZEROS, []) && password.Length == 0
    {
      var m: seq<byte> := [code, 0] + U16(HEADER) + ZEROS;
      var a := new byte[HEADER](i requires 0 <= i < HEADER => m[i]);
      msg := a;
      password := new byte[0];
      new;
      assert msg[..] == m;
      assert FlatAll([]) == [];
      U16RoundTrip(HEADER);
      assert msg[2..4] == U16(HEADER);
    }

    constructor FromBytes(data: seq<byte>)
      requires WellFormed(data) && |data| <= MAX_MESSAGE
      ensures Valid() && fresh(msg) && fresh(password) && msg[..] == data && password.Length == 0
    {
      var a := new byte[|data|](i requires 0 <= i < |data| => data[i]);
      msg := a;
      password := new byte[0];
      new;
      assert msg[..] == data;
    }

    static method Parse(data: seq<byte>) returns (m: Option<Message>)
      ensures m.Some? <==> WellFormed(data)
      ensures m.Some? ==> fresh(m.value) && fresh(m.value.msg) && fresh(m.value.password) && m.value.Valid() && m.value.msg[..] == data
    {
      if |data| < HEADER || FromU16(data[2..4]) != |data| {
        return None;
      }
      U16Injective(data[2..4]);
      var message := new Message.FromBytes(data);
      return Some(message);
    }

    /** The first password is only remembered; everything else is appended, cut to what an attribute holds. */
    method Add(kind: byte, data: seq<byte>)
      requires Valid()
      requires (kind == USER_PASSWORD && password.Length == 0) || msg.Length + 2 + Min(|data|, MAX_ATTRIBUTE) <= MAX_MESSAGE
      modifies this
      ensures Valid()
      ensures if kind == USER_PASSWORD && old(password.Length) == 0 then
                && fresh(password) && password[..] == Padded(data) && msg == old(msg)
              else
                && fresh(msg) && msg[..] == Added(old(msg[..]), Attr(kind, Cut(data))) && password == old(password)
    {
      if kind == USER_PASSWORD && password.Length == 0 {
        var padded := Padded(data);
        password := new byte[|padded|](i requires 0 <= i < |padded| => padded[i]);
        assert password[..] == padded;
      } else {
        Append(Attr(kind, Cut(data)));
      }
    }

    method Append(a: Attr)
      requires Valid() && Short(a) && msg.Length + 2 + |a.value| <= MAX_MESSAGE
      modifies this`msg
      ensures Valid() && fresh(msg) && msg[..] == Added(old(msg[..]), a)
    {
      hide U16, FromU16;
      var len := FromU16(msg[2..4]);
      var grown := new byte[len + 2 + |a.value|];
      CopyInto(grown, 0, msg[..]);
      CopyInto(grown, len, Flat(a));
      CopyInto(grown, 2, U16(grown.Length));
      assert grown[..] == Added(msg[..], a);
      assert grown[2..4] == U16(grown.Length);
      U16RoundTrip(grown.Length);
      assert grown[..][2..4] == grown[2..4];
      msg := grown;
    }

    method SetAuthenticator(auth: seq<byte>)
      requires Valid() && |auth| == HASH_SIZE
      modifies msg
      ensures Valid() && msg[..] == WithAuth(old(msg[..]), auth)
    {
      hide FromU16;
      ghost var was := msg[..];
      CopyInto(msg, 4, auth);
      assert msg[..] == WithAuth(was, auth);
      assert msg[..][2..4] == was[2..4];
    }

    method Sign(origin: Origin, secret: seq<byte>, hash: Hash, signer: Signer, msgAuth: bool) returns (ok: bool)
      requires Valid() && OriginOk(origin) && HashOk(hash) && SignerOk(signer)
      requires msg.Length + Growth(password[..], msgAuth) <= MAX_MESSAGE
      modifies this, msg, password
      ensures Valid()
      ensures ok == old(Signed(msg[..], password[..], origin, secret, hash, signer, msgAuth)).Some?
      ensures ok ==> Some(msg[..]) == old(Signed(msg[..], password[..], origin, secret, hash, signer, msgAuth))
      ensures ok ==> password.Length == 0
    {
      hide HashOk, SignerOk, WithPassword, WithMac, WithResponse, WithAuth, FromU16, WellFormed;
      var auth := Initial(origin);
      if auth.None? {
        return false;
      }
      SetAuthenticator(auth.value);
      ghost var m0 := msg[..];
      ok := AddPassword(secret, hash);
      if !ok {
        return false;
      }
      ghost var m1 := msg[..];
      ok := AddMac(signer, msgAuth);
      if !ok {
        return false;
      }
      ok := AddResponse(origin, secret, hash);
    }

    method AddPassword(secret: seq<byte>, hash: Hash) returns (ok: bool)
      requires Valid() && HashOk(hash) && msg.Length + Growth(password[..], false) <= MAX_MESSAGE
      modifies this, password
      ensures Valid() && (msg == old(msg) || fresh(msg))
      ensures ok == old(WithPassword(msg[..], hash, secret, password[..])).Some?
      ensures ok ==> Some(msg[..]) == old(WithPassword(msg[..], hash, secret, password[..])) && password.Length == 0
      ensures ok && msg == old(msg) ==> msg[..] == old(msg[..])
    {
      hide HashOk, Crypted, FromU16, U16, Blocks, Added;
      ok := true;
      if password.Length > 0 {
        assert msg[..][4..HEADER] == msg[4..HEADER];
        PasswordLong(password[..]);
        ghost var plain := password[..];
        ok := Crypt(hash, secret, msg[4..HEADER], [], password, password);
        if !ok {
          SealedBlocks(password[..], plain);
          return false;
        }
        SealedBlocks(password[..], plain);
        Append(Attr(USER_PASSWORD, Cut(password[..])));
        password := new byte[0];
        NoBlocks(password[..]);
      }
    }

    method AddMac(signer: Signer, msgAuth: bool) returns (ok: bool)
      requires Valid() && SignerOk(signer) && msg.Length + Growth([], msgAuth) <= MAX_MESSAGE
      modifies this`msg
      ensures Valid() && (msg == old(msg) || fresh(msg))
      ensures ok == old(WithMac(msg[..], signer, msgAuth)).Some?
      ensures ok ==> Some(msg[..]) == old(WithMac(msg[..], signer, msgAuth))
    {
      hide FromU16, U16;
      ok := true;
      if msgAuth {
        Append(Attr(MESSAGE_AUTHENTICATOR, ZEROS));
        ghost var z := msg[..];
        match signer.sign(msg[..]) {
          case None =>
            return false;
          case Some(sig) =>
            SignatureSize(signer, z, sig);
            CopyInto(msg, msg.Length - HASH_SIZE, sig);
            assert msg[..] == z[..|z| - HASH_SIZE] + sig;
            assert msg[..][2..4] == z[2..4];
        }
      }
    }

    method AddResponse(origin: Origin, secret: seq<byte>, hash: Hash) returns (ok: bool)
      requires Valid() && HashOk(hash)
      modifies msg
      ensures Valid()
      ensures ok == old(WithResponse(msg[..], hash, secret, origin)).Some?
      ensures ok ==> Some(msg[..]) == old(WithResponse(msg[..], hash, secret, origin))
    {
      hide FromU16;
      ok := true;
      if !origin.Random? {
        match hash(msg[..] + secret) {
          case None =>
            return false;
          case Some(auth) =>
            HashSize(hash, msg[..] + secret);
            SetAuthenticator(auth);
        }
      }
    }

    /** Looks for the Message-Authenticator and checks it; on failure its value stays zeroed. */
    method CheckMac(signer: Signer) returns (ok: bool, hasEap: bool, hasAuth: bool)
      requires Valid()
      modifies msg
      ensures Valid()
      ensures var scan := old(ScanFrom(msg[HEADER..], HEADER, false));
              if scan.at.None? then ok && hasEap == scan.eap && !hasAuth && msg[..] == old(msg[..])
              else if scan.len != HASH_SIZE then !ok && msg[..] == old(msg[..])
              else
                var at := scan.at.value;
                && ok == hasAuth == old(signer.verify(ZeroAt(msg[..], at), msg[at..at + HASH_SIZE]))
                && msg[..] == if ok then old(msg[..]) else old(ZeroAt(msg[..], at))
    {
      hide FromU16, ZeroAt, ScanFrom, Blocks;
      ok, hasAuth := true, false;
      var found, at, len;
      found, at, len, hasEap := FindMac();
      if found {
        ok, hasAuth := CheckValue(signer, at, len);
      }
    }

    /** Where the value of the first Message-Authenticator is, and whether an EAP-Message comes before it. */
    method FindMac() returns (found: bool, at: nat, len: nat, hasEap: bool)
      requires msg.Length >= HEADER
      ensures ScanFrom(msg[HEADER..], HEADER, false) == Scan(hasEap, if found then Some(at) else None, len)
      ensures found ==> HEADER <= at && at + len <= msg.Length
      ensures !found ==> len == 0
    {
      hide Attributes, ScanFrom;
      found, at, len, hasEap := false, 0, 0, false;
      var enumerator := new Enumerator(msg);
      assert enumerator.Rest() == msg[HEADER..];
      while true
        invariant fresh(enumerator) && enumerator.msg == msg && enumerator.Valid() && enumerator.next >= HEADER && !found
        invariant ScanFrom(msg[HEADER..], HEADER, false) == ScanFrom(enumerator.Rest(), enumerator.next, hasEap)
        decreases enumerator.left
      {
        ghost var rest := enumerator.Rest();
        ScanStep(rest, enumerator.next, hasEap);
        var more, kind;
        more, kind, at, len := enumerator.Enumerate();
        if !more {
          at, len := 0, 0;
          break;
        }
        assert rest[0] == kind && rest[1] == len + 2 && rest[rest[1]..] == enumerator.Rest();
        if kind == MESSAGE_AUTHENTICATOR {
          found := true;
          break;
        } else if kind == EAP_MESSAGE {
          hasEap := true;
        }
      }
    }

    method CheckValue(signer: Signer, at: nat, len: nat) returns (ok: bool, hasAuth: bool)
      requires Valid() && HEADER <= at && at + len <= msg.Length
      modifies msg
      ensures Valid()
      ensures if len != HASH_SIZE then !ok && msg[..] == old(msg[..])
              else
                && ok == hasAuth == old(signer.verify(ZeroAt(msg[..], at), msg[at..at + HASH_SIZE]))
                && msg[..] == if ok then old(msg[..]) else old(ZeroAt(msg[..], at))
    {
      hide FromU16;
      ok, hasAuth := false, false;
      if len == HASH_SIZE {
        ghost var was := msg[..];
        var buf := msg[at..at + len];
        CopyInto(msg, at, ZEROS);
        assert msg[..] == ZeroAt(was, at);
        assert msg[..][2..4] == was[2..4];
        if signer.verify(msg[..], buf) {
          CopyInto(msg, at, buf);
          assert msg[..] == was;
          ok, hasAuth := true, true;
        }
      }
    }

    method Verify(reqAuth: Option<seq<byte>>, secret: seq<byte>, hash: Hash, signer: Signer) returns (ok: bool)
      requires Valid() && (reqAuth.Some? ==> |reqAuth.value| == HASH_SIZE)
      modifies msg
      ensures Valid() && Verdict(ok, msg[..]) == old(Verified(msg[..], reqAuth, secret, hash, signer))
    {
      hide FromU16, ScanFrom, ZeroAt, WithAuth, Blocks;
      ghost var was := msg[..];
      ghost var replaced := Replaced(was, reqAuth);
      var resAuth := msg[4..HEADER];
      assert resAuth == was[4..HEADER] && was[0] == msg[0];
      var request := msg[0] == ACCESS_REQUEST;
      if !request {
        SetAuthenticator(if reqAuth.Some? then reqAuth.value else ZEROS);
        match hash(msg[..] + secret) {
          case None =>
            return false;
          case Some(buf) =>
            if buf != resAuth {
              return false;
            }
        }
      }
      assert msg[..] == replaced;
      assert msg[HEADER..] == replaced[HEADER..];
      var hasEap, hasAuth;
      ok, hasEap, hasAuth := CheckMac(signer);
      if ok {
        if !request {
          CopyInto(msg, 4, resAuth);
        }
        assert msg[..] == was by { Restored(was, reqAuth, msg[..], replaced); }
        ok := !(hasEap && !hasAuth);
      }
    }
  }

  lemma ScanStep(s: seq<byte>, pos: nat, eap: bool)
    ensures ScanFrom(s, pos, eap)
         == if !HasAttr(s) then Scan(eap, None, 0)
            else if s[0] == MESSAGE_AUTHENTICATOR then Scan(eap, Some(pos + 2), s[1] - 2)
            else ScanFrom(s[s[1]..], pos + s[1], eap || s[0] == EAP_MESSAGE)
  {
  }

  lemma SignatureSize(signer: Signer, data: seq<byte>, sig: seq<byte>)
    requires SignerOk(signer) && signer.sign(data) == Some(sig)
    ensures |sig| == HASH_SIZE
  {
  }

  lemma PasswordLong(password: seq<byte>)
    requires Blocks(password) && password != []
    ensures |password| >= HASH_SIZE
  {
  }

  lemma SealedBlocks(a: seq<byte>, b: seq<byte>)
    requires |a| == |b| && Blocks(b)
    ensures Blocks(a)
  {
  }

  lemma NoBlocks(a: seq<byte>)
    requires a == []
    ensures Blocks(a)
  {
  }

  /** Putting the Response-Authenticator back. */
  lemma Restored(was: seq<byte>, reqAuth: Option<seq<byte>>, now: seq<byte>, replaced: seq<byte>)
    requires |was| >= HEADER && (reqAuth.Some? ==> |reqAuth.value| == HASH_SIZE) && replaced == Replaced(was, reqAuth)
    requires |now| == |was|
    requires if was[0] == ACCESS_REQUEST then now == replaced
             else now[4..HEADER] == was[4..HEADER] && forall i :: 0 <= i < |now| && !(4 <= i < HEADER) ==> now[i] == replaced[i]
    ensures now == was
  {
    if was[0] != ACCESS_REQUEST {
      forall i | 0 <= i < |now|
        ensures now[i] == was[i]
      {
        assert 4 <= i < HEADER ==> now[i] == now[4..HEADER][i - 4] && was[i] == was[4..HEADER][i - 4];
      }
    }
  }

  /** The receiver gets the password back, unless it is longer than an attribute holds. */
  lemma PasswordRecoveredIff(hash: Hash, secret: seq<byte>, auth: seq<byte>, password: seq<byte>)
    requires HashOk(hash) && Blocks(password) && Sealed(hash, secret, auth, password).Some?
    ensures Blocks(Cut(Sealed(hash, secret, auth, password).value)) <==> |password| <= MAX_ATTRIBUTE
    ensures |password| <= MAX_ATTRIBUTE ==>
              match hash(Seed(secret, auth, []))
              case None => false
              case Some(key) => Crypted(hash, secret, key, Cut(Sealed(hash, secret, auth, password).value), false) == Some(password)
  {
    var c := Sealed(hash, secret, auth, password).value;
    match hash(Seed(secret, auth, [])) {
      case None =>
      case Some(key) =>
        HashSize(hash, Seed(secret, auth, []));
        if |password| <= MAX_ATTRIBUTE {
          assert Cut(c) == c;
          DecryptsEncrypted(hash, secret, key, password);
        }
    }
  }

  /** With a hash that always answers zeros, a password of 254 bytes is signed and does not come back. */
  lemma LongPasswordLost(secret: seq<byte>, auth: seq<byte>)
    ensures var hash: Hash := data => Some(ZEROS);
            var password := Padded(Fill(0, 254));
            && HashOk(hash) && Sealed(hash, secret, auth, password).Some?
            && !Blocks(Cut(Sealed(hash, secret, auth, password).value))
  {
    var hash: Hash := data => Some(ZEROS);
    var password := Padded(Fill(0, 254));
    assert |password| > MAX_ATTRIBUTE && HashOk(hash);
    AlwaysCrypts(hash, secret, ZEROS, password, true);
    PasswordRecoveredIff(hash, secret, auth, password);
  }

  lemma {:induction false} AlwaysCrypts(hash: Hash, secret: seq<byte>, key: seq<byte>, s: seq<byte>, fromOutput: bool)
    requires HashOk(hash) && (forall data :: hash(data).Some?) && |key| == HASH_SIZE && Blocks(s)
    ensures Crypted(hash, secret, key, s, fromOutput).Some?
    decreases |s|
  {
    hide Xor, HashOk;
    if s != [] {
      FirstBlock(s);
      var block, rest := s[..HASH_SIZE], s[HASH_SIZE..];
      BlocksBehind(block, rest);
      if rest == [] {
        CryptedLast(hash, secret, key, s, fromOutput);
      } else {
        CryptedStep(hash, secret, key, block, rest, fromOutput);
        AlwaysCrypts(hash, secret, hash(secret + if fromOutput then Xor(block, key) else block).value, rest, fromOutput);
      }
    }
  }

  /**
   * Signing on one side, parsing and verifying on the other, of a message made
   * of the given parts.
   */
  method Transmit(sender: Message, ghost code: byte, ghost id: byte, ghost auth: seq<byte>, ghost attrs: seq<Attr>,
                  origin: Origin, reqAuth: Option<seq<byte>>, secret: seq<byte>, hash: Hash, signer: Signer, msgAuth: bool)
      returns (received: Option<Message>, verified: bool)
    requires sender.Valid() && |auth| == HASH_SIZE && AllShort(attrs) && sender.msg[..] == Raw(code, id, auth, attrs)
    requires NoAuthenticator(attrs) && OriginOk(origin) && HashOk(hash) && SignerOk(signer) && SignerSound(signer)
    requires (origin.Random? <==> code == ACCESS_REQUEST) && SameRequest(origin, reqAuth)
    requires reqAuth.Some? ==> |reqAuth.value| == HASH_SIZE
    requires sender.msg.Length + Growth(sender.password[..], msgAuth) <= MAX_MESSAGE
    modifies sender, sender.msg, sender.password
    ensures received.Some? <==> old(Signed(sender.msg[..], sender.password[..], origin, secret, hash, signer, msgAuth)).Some?
    ensures received.Some? ==> Initial(origin).Some? && received.value.Valid()
    ensures received.Some? ==>
              && received.value.msg[..] == sender.msg[..]
              && Some(Attributes(received.value.msg[HEADER..]))
              == SignedAttrs(code, id, Initial(origin).value, attrs, old(sender.password[..]), secret, hash, signer, msgAuth)
              && verified == (msgAuth || !HasEap(attrs))
  {
    hide Signed, SignedAttrs, Verified, Raw, Attributes, HasEap, NoAuthenticator, HashOk, SignerOk, SignerSound, Blocks, Growth,
         FromU16, FlatAll;
    received, verified := None, false;
    ghost var password := sender.password[..];
    assert |sender.msg[..]| == HEADER + |FlatAll(attrs)|;
    var ok := sender.Sign(origin, secret, hash, signer, msgAuth);
    if ok {
      SignedVerifies(code, id, auth, attrs, password, origin, reqAuth, secret, hash, signer, msgAuth);
      received := Message.Parse(sender.msg[..]);
      assert received.value.msg[..][HEADER..] == received.value.msg[HEADER..];
      verified := received.value.Verify(reqAuth, secret, hash, signer);
      assert received.value.msg[..][HEADER..] == received.value.msg[HEADER..];
    }
  }

  /** A message built by a whole sequence of additions. */
  method Build(code: byte, adds: seq<Attr>) returns (m: Message)
    requires HEADER + |FlatAll(Kept(adds, []))| <= MAX_MESSAGE
    ensures fresh(m) && fresh(m.msg) && fresh(m.password) && m.Valid()
    ensures m.msg[..] == Raw(code, 0, ZEROS, Kept(adds, [])) && m.password[..] == Remembered(adds, [])
  {
    hide Raw, Added, Kept, Remembered, FlatAll, Padded, Cut, FromU16, Blocks, WellFormed;
    m := new Message(code);
    ghost var done: seq<Attr> := [];
    assert adds[0..] == adds && [] + Kept(adds, []) == Kept(adds, []);
    assert m.password[..] == [];
    for n := 0 to |adds|
      invariant fresh(m) && fresh(m.msg) && fresh(m.password) && m.Valid()
      invariant AllShort(done) && m.msg[..] == Raw(code, 0, ZEROS, done)
      invariant done + Kept(adds[n..], m.password[..]) == Kept(adds, [])
      invariant Remembered(adds[n..], m.password[..]) == Remembered(adds, [])
    {
      ghost var rest, password := adds[n..], m.password[..];
      assert rest[0] == adds[n] && rest[1..] == adds[n + 1..];
      KeptFirst(rest, password);
      StoredFits(code, done, Kept(rest, password), adds);
      m.Add(adds[n].kind, adds[n].value);
      if !SetAside(adds[n], password) {
        ghost var stored := Attr(adds[n].kind, Cut(adds[n].value));
        AddedRaw(code, 0, ZEROS, done, stored);
        assert done + ([stored] + Kept(rest[1..], password)) == (done + [stored]) + Kept(rest[1..], password);
        done := done + [stored];
      }
    }
    assert adds[|adds|..] == [];
    KeptNone(m.password[..]);
    assert done + [] == done;
  }

  lemma KeptNone(password: seq<byte>)
    ensures Kept([], password) == [] && Remembered([], password) == password
  {
  }

  lemma KeptFirst(adds: seq<Attr>, password: seq<byte>)
    requires adds != []
    ensures Kept(adds, password) ==
            if SetAside(adds[0], password) then Kept(adds[1..], Padded(adds[0].value))
            else [Attr(adds[0].kind, Cut(adds[0].value))] + Kept(adds[1..], password)
    ensures Remembered(adds, password) == Remembered(adds[1..], if SetAside(adds[0], password) then Padded(adds[0].value) else password)
  {
  }

  /** While attributes are left to store there is room for the next. */
  lemma StoredFits(code: byte, done: seq<Attr>, rest: seq<Attr>, adds: seq<Attr>)
    requires AllShort(done) && AllShort(rest) && done + rest == Kept(adds, [])
    requires HEADER + |FlatAll(Kept(adds, []))| <= MAX_MESSAGE
    ensures rest != [] ==> |Raw(code, 0, ZEROS, done)| + 2 + |rest[0].value| <= MAX_MESSAGE
  {
    hide Kept, Flat;
    FlatAppend(done, rest);
  }

  /**
   * The whole way from the calls of add to the verdict of the receiver: the
   * attributes enumerated are those added, cut, in order, then the password,
   * then the Message-Authenticator.
   */
  method BuildAndTransmit(code: byte, adds: seq<Attr>, origin: Origin, reqAuth: Option<seq<byte>>, secret: seq<byte>,
                          hash: Hash, signer: Signer, msgAuth: bool) returns (received: Option<Message>, verified: bool)
    requires NoAuthenticator(adds)
    requires HEADER + |FlatAll(Kept(adds, []))| + Growth(Remembered(adds, []), msgAuth) <= MAX_MESSAGE
    requires OriginOk(origin) && HashOk(hash) && SignerOk(signer) && SignerSound(signer)
    requires (origin.Random? <==> code == ACCESS_REQUEST) && SameRequest(origin, reqAuth)
    requires reqAuth.Some? ==> |reqAuth.value| == HASH_SIZE
    ensures received.Some? <==>
            Signed(Raw(code, 0, ZEROS, Kept(adds, [])), Remembered(adds, []), origin, secret, hash, signer, msgAuth).Some?
    ensures received.Some? ==> Initial(origin).Some? && received.value.Valid()
    ensures received.Some? ==>
              && Some(Attributes(received.value.msg[HEADER..]))
              == SignedAttrs(code, 0, Initial(origin).value, Kept(adds, []), Remembered(adds, []), secret, hash, signer, msgAuth)
              && verified == (msgAuth || !HasEap(Kept(adds, [])))
  {
    hide Raw, Signed, SignedAttrs, Attributes, HasEap, NoAuthenticator, Kept, Remembered, FlatAll, Blocks, Growth, HashOk,
         SignerOk, SignerSound, FromU16;
    var m := Build(code, adds);
    KeptKinds(adds, []);
    ghost var attrs := Kept(adds, []);
    assert |m.msg[..]| == HEADER + |FlatAll(attrs)|;
    received, verified := Transmit(m, code, 0, ZEROS, attrs, origin, reqAuth, secret, hash, signer, msgAuth);
  }
}
