/**
 * CBC record protection in TLS: MAC, padding and encryption with an IV that is
 * carried from record to record, or with one sent in front of each record.
 */
module TlsAead {
  import opened Bytes

  datatype Crypter = Crypter(blockSize: byte, ivSize: nat, encrypt: (seq<byte>, seq<byte>) -> Option<seq<byte>>,
                             decrypt: (seq<byte>, seq<byte>) -> Option<seq<byte>>)

  datatype Signer = Signer(size: nat, sign: seq<byte> -> Option<seq<byte>>, verify: (seq<byte>, seq<byte>) -> bool)

  datatype Suite = Suite(crypter: Crypter, signer: Signer)

  /** Encryption and decryption work in place; signatures have their size. */
  ghost predicate SuiteOk(s: Suite) {
    && s.crypter.blockSize > 0
    && (forall plain, iv :: match s.crypter.encrypt(plain, iv) case None => true case Some(c) => |c| == |plain|)
    && (forall cipher, iv :: match s.crypter.decrypt(cipher, iv) case None => true case Some(p) => |p| == |cipher|)
    && (forall data :: match s.signer.sign(data) case None => true case Some(mac) => |mac| == s.signer.size)
  }

  /** Decryption undoes encryption and the signature made is accepted. */
  ghost predicate Sound(s: Suite) {
    && (forall plain, iv :: match s.crypter.encrypt(plain, iv) case None => true case Some(c) => s.crypter.decrypt(c, iv) == Some(plain))
    && (forall data :: match s.signer.sign(data) case None => true case Some(mac) => s.signer.verify(data, mac))
  }

  /** A record to protect: content type, version, sequence number and data. */
  datatype Header = Header(kind: byte, version: nat, seqno: nat)

  /** What is signed in front of the data; the length is stored in 16 bits. */
  function Assoc(h: Header, n: nat): seq<byte> {
    U32(h.seqno / U32_LIMIT) + U32(h.seqno) + [h.kind] + U16(h.version) + U16(n)
  }

  /** padlen bytes of value padlen, and padlen itself. */
  function PadBytes(padlen: byte): seq<byte> {
    Fill(padlen, padlen) + [padlen]
  }

  function PadFor(s: Suite, n: nat): byte
    requires s.crypter.blockSize > 0
  {
    PadLen(n + s.signer.size + 1, s.crypter.blockSize)
  }

  /** Data, MAC and padding. */
  function Plain(s: Suite, h: Header, data: seq<byte>): (plain: Option<seq<byte>>)
    requires SuiteOk(s)
    ensures plain.Some? ==> |plain.value| % s.crypter.blockSize == 0 && |plain.value| >= s.crypter.blockSize
  {
    match s.signer.sign(Assoc(h, |data|) + data)
    case None => None
    case Some(mac) =>
      var padlen := PadFor(s, |data|);
      MultipleAtLeast(|data| + s.signer.size + 1 + padlen, s.crypter.blockSize);
      Some(data + mac + PadBytes(padlen))
  }

  lemma MultipleAtLeast(n: nat, m: nat)
    requires m > 0 && n > 0 && n % m == 0
    ensures n >= m
  {
  }

  /** Without the padding, if it looks like padding; None if it does so only at the end. */
  function Unpadded(plain: seq<byte>): (r: Option<seq<byte>>)
    requires |plain| > 0
    ensures r.Some? ==> r.value <= plain
  {
    var padlen := plain[|plain| - 1];
    if padlen >= |plain| then Some(plain)
    else if forall i :: |plain| - padlen - 1 <= i < |plain| - 1 ==> plain[i] == padlen then Some(plain[..|plain| - padlen - 1])
    else None
  }

  /** The data, if the MAC behind it is right. */
  function Authenticated(s: Suite, h: Header, body: seq<byte>): Option<seq<byte>> {
    if |body| < s.signer.size then None else
    var n := |body| - s.signer.size;
    if s.signer.verify(Assoc(h, n) + body[..n], body[n..]) then Some(body[..n]) else None
  }

  /** Decryption of one record with a given IV. */
  function Opened(s: Suite, h: Header, iv: seq<byte>, cipher: seq<byte>): Option<seq<byte>>
    requires SuiteOk(s)
  {
    if |cipher| < s.crypter.blockSize || |cipher| % s.crypter.blockSize != 0 then None else
    match s.crypter.decrypt(cipher, iv)
    case None => None
    case Some(plain) =>
      match Unpadded(plain)
      case None => None
      case Some(body) => Authenticated(s, h, body)
  }

  /** Encryption of one record with a given IV. */
  function Sealed(s: Suite, h: Header, iv: seq<byte>, data: seq<byte>): (cipher: Option<seq<byte>>)
    requires SuiteOk(s)
    ensures cipher.Some? ==> |cipher.value| >= s.crypter.blockSize && |cipher.value| % s.crypter.blockSize == 0
  {
    match Plain(s, h, data)
    case None => None
    case Some(plain) => s.crypter.encrypt(plain, iv)
  }

  lemma UnpaddedPlain(body: seq<byte>, padlen: byte)
    ensures Unpadded(body + PadBytes(padlen)) == Some(body)
  {
    var plain := body + PadBytes(padlen);
    assert plain[..|plain| - padlen - 1] == body;
  }

  /** What is taken for padding is padding, and is refused if its bytes are not all the pad length. */
  lemma UnpaddedSound(plain: seq<byte>)
    requires |plain| > 0
    ensures var padlen := plain[|plain| - 1];
            match Unpadded(plain)
            case None => padlen < |plain| && exists i :: |plain| - padlen - 1 <= i < |plain| && plain[i] != padlen
            case Some(body) => if padlen >= |plain| then body == plain else plain == body + Fill(padlen, padlen + 1)
  {
    var padlen := plain[|plain| - 1];
    if Unpadded(plain).Some? && padlen < |plain| {
      assert plain == plain[..|plain| - padlen - 1] + plain[|plain| - padlen - 1..];
      assert plain[|plain| - padlen - 1..] == Fill(padlen, padlen + 1);
    }
  }

  /** One record, sealed and opened with the same IV. */
  lemma OpensSealed(s: Suite, h: Header, iv: seq<byte>, data: seq<byte>)
    requires SuiteOk(s) && Sound(s) && Sealed(s, h, iv, data).Some?
    ensures Opened(s, h, iv, Sealed(s, h, iv, data).value) == Some(data)
  {
    hide Assoc, Unpadded, PadBytes, PadFor;
    var signed := Assoc(h, |data|) + data;
    var mac := s.signer.sign(signed).value;
    var body := data + mac;
    UnpaddedPlain(body, PadFor(s, |data|));
    assert body[..|data|] == data && body[|data|..] == mac;
  }

  /** The IV for the next record: the end of this one. */
  function NextIv(cipher: seq<byte>, n: nat): (iv: seq<byte>)
    requires n <= |cipher|
    ensures |iv| == n
  {
    cipher[|cipher| - n..]
  }

  /** A step of either side: what it returns and the IV it goes on with. */
  datatype Step = Step(out: Option<seq<byte>>, iv: seq<byte>)

  /** A record shorter than the IV is refused, after all the work. */
  function EncryptStep(s: Suite, iv: seq<byte>, h: Header, data: seq<byte>): Step
    requires SuiteOk(s)
  {
    var cipher := Sealed(s, h, iv, data);
    if cipher.None? || |cipher.value| < |iv| then Step(None, iv) else Step(cipher, NextIv(cipher.value, |iv|))
  }

  /** The check for short records never fires while the IV is no longer than a block. */
  lemma NeverTooShort(s: Suite, iv: seq<byte>, h: Header, data: seq<byte>)
    requires SuiteOk(s) && |iv| <= s.crypter.blockSize
    ensures EncryptStep(s, iv, h, data).out == Sealed(s, h, iv, data)
  {
    hide Sealed;
  }

  /** The IV moves on before anything is known about the record. */
  function DecryptStep(s: Suite, iv: seq<byte>, h: Header, cipher: seq<byte>): Step
    requires SuiteOk(s)
  {
    if |cipher| < s.crypter.blockSize || |cipher| < |iv| || |cipher| % s.crypter.blockSize != 0 then Step(None, iv)
    else Step(Opened(s, h, iv, cipher), NextIv(cipher, |iv|))
  }

  /** From equal IVs one record gets through and the IVs stay equal. */
  lemma StepLockstep(s: Suite, iv: seq<byte>, h: Header, data: seq<byte>)
    requires SuiteOk(s) && Sound(s) && EncryptStep(s, iv, h, data).out.Some?
    ensures var e := EncryptStep(s, iv, h, data);
            DecryptStep(s, iv, h, e.out.value) == Step(Some(data), e.iv)
  {
    hide Opened, Sound;
    OpensSealed(s, h, iv, data);
  }

  /** Every step of a side over a sequence of records, until one fails. */
  function EncryptAll(s: Suite, iv: seq<byte>, hs: seq<Header>, datas: seq<seq<byte>>): seq<Step>
    requires SuiteOk(s) && |hs| == |datas|
    decreases |hs|
  {
    if hs == [] then [] else
    var step := EncryptStep(s, iv, hs[0], datas[0]);
    [step] + if step.out.None? then [] else EncryptAll(s, step.iv, hs[1..], datas[1..])
  }

  function DecryptAll(s: Suite, iv: seq<byte>, hs: seq<Header>, ciphers: seq<seq<byte>>): seq<Step>
    requires SuiteOk(s) && |hs| == |ciphers|
    decreases |hs|
  {
    if hs == [] then [] else
    var step := DecryptStep(s, iv, hs[0], ciphers[0]);
    [step] + if step.out.None? then [] else DecryptAll(s, step.iv, hs[1..], ciphers[1..])
  }

  predicate AllOut(steps: seq<Step>) {
    forall i :: 0 <= i < |steps| ==> steps[i].out.Some?
  }

  function Outs(steps: seq<Step>): (r: seq<seq<byte>>)
    requires AllOut(steps)
    ensures |r| == |steps|
  {
    if steps == [] then [] else [steps[0].out.value] + Outs(steps[1..])
  }

  /** The steps of a receiver that gets the data and has the sender's IV after every record. */
  function Mirrored(sent: seq<Step>, datas: seq<seq<byte>>): (r: seq<Step>)
    requires |sent| == |datas|
    ensures |r| == |sent| && forall i :: 0 <= i < |r| ==> r[i] == Step(Some(datas[i]), sent[i].iv)
  {
    if sent == [] then [] else [Step(Some(datas[0]), sent[0].iv)] + Mirrored(sent[1..], datas[1..])
  }

  /** Opening the records of a whole run in order returns their data, with equal IVs after every record. */
  lemma {:induction false} Lockstep(s: Suite, iv: seq<byte>, hs: seq<Header>, datas: seq<seq<byte>>)
    requires SuiteOk(s) && Sound(s) && |hs| == |datas|
    requires AllOut(EncryptAll(s, iv, hs, datas)) && |EncryptAll(s, iv, hs, datas)| == |hs|
    ensures DecryptAll(s, iv, hs, Outs(EncryptAll(s, iv, hs, datas))) == Mirrored(EncryptAll(s, iv, hs, datas), datas)
    decreases |hs|
  {
    hide EncryptStep, DecryptStep, Sound, SuiteOk;
    if hs != [] {
      FirstOut(s, iv, hs, datas);
      var sent := EncryptAll(s, iv, hs, datas);
      var step := EncryptStep(s, iv, hs[0], datas[0]);
      var rest := EncryptAll(s, step.iv, hs[1..], datas[1..]);
      assert sent == [step] + rest && sent[1..] == rest;
      StepLockstep(s, iv, hs[0], datas[0]);
      Lockstep(s, step.iv, hs[1..], datas[1..]);
      assert Outs(sent)[1..] == Outs(rest);
    }
  }

  /** The padding check of both variants. */
  method CheckPadding(plain: seq<byte>) returns (body: Option<seq<byte>>)
    requires |plain| > 0
    ensures body == Unpadded(plain)
  {
    var padlen := plain[|plain| - 1];
    if padlen < |plain| {
      var i := |plain| - padlen - 1;
      while i < |plain| - 1
        invariant |plain| - padlen - 1 <= i <= |plain| - 1
        invariant forall k :: |plain| - padlen - 1 <= k < i ==> plain[k] == padlen
      {
        if plain[i] != padlen {
          return None;
        }
        i := i + 1;
      }
      return Some(plain[..|plain| - padlen - 1]);
    }
    return Some(plain);
  }

  /** Checks and strips padding and MAC. */
  method Strip(s: Suite, h: Header, plain: seq<byte>) returns (data: Option<seq<byte>>)
    requires |plain| > 0
    ensures data == match Unpadded(plain) case None => None case Some(body) => Authenticated(s, h, body)
  {
    hide Unpadded;
    var body := CheckPadding(plain);
    if body.None? || |body.value| < s.signer.size {
      return None;
    }
    var n := |body.value| - s.signer.size;
    if !s.signer.verify(Assoc(h, n) + body.value[..n], body.value[n..]) {
      return None;
    }
    return Some(body.value[..n]);
  }

  /** TLS 1.0: the IV is the last ciphertext of the record before. */
  class Implicit {
    const suite: Suite
    var iv: seq<byte>

    constructor (suite: Suite, iv: seq<byte>)
      ensures this.suite == suite && this.iv == iv
    {
      this.suite, this.iv := suite, iv;
    }

    method Encrypt(h: Header, data: seq<byte>) returns (out: Option<seq<byte>>)
      requires SuiteOk(suite)
      modifies this
      ensures Step(out, iv) == EncryptStep(suite, old(iv), h, data)
    {
      match suite.signer.sign(Assoc(h, |data|) + data) {
        case None =>
          return None;
        case Some(mac) =>
          var padlen: byte := PadLen(|data| + suite.signer.size + 1, suite.crypter.blockSize);
          var plain := data + mac + (Fill(padlen, padlen) + [padlen]);
          out := suite.crypter.encrypt(plain, iv);
          if out.None? || |out.value| < |iv| {
            return None;
          }
          iv := out.value[|out.value| - |iv|..];
      }
    }

    method Decrypt(h: Header, cipher: seq<byte>) returns (out: Option<seq<byte>>)
      requires SuiteOk(suite)
      modifies this
      ensures Step(out, iv) == DecryptStep(suite, old(iv), h, cipher)
    {
      hide Unpadded, Authenticated;
      var bs := suite.crypter.blockSize;
      if |cipher| < bs || |cipher| < |iv| || |cipher| % bs != 0 {
        return None;
      }
      var used := iv;
      iv := cipher[|cipher| - |iv|..];
      match suite.crypter.decrypt(cipher, used) {
        case None =>
          return None;
        case Some(plain) =>
          out := Strip(suite, h, plain);
      }
    }
  }

  /** One record from sender to receiver: its data arrive exactly if it can be encrypted, and the IVs stay equal. */
  method Pass(sender: Implicit, receiver: Implicit, h: Header, data: seq<byte>) returns (got: Option<seq<byte>>)
    requires sender != receiver && sender.suite == receiver.suite && SuiteOk(sender.suite) && Sound(sender.suite)
    requires sender.iv == receiver.iv
    modifies sender, receiver
    ensures var step := EncryptStep(sender.suite, old(sender.iv), h, data);
            sender.iv == receiver.iv == step.iv && got == if step.out.Some? then Some(data) else None
  {
    hide SuiteOk, Sound, EncryptStep, DecryptStep;
    ghost var iv := sender.iv;
    var cipher := sender.Encrypt(h, data);
    if cipher.None? {
      FailureKeepsIv(sender.suite, iv, h, data);
      return None;
    }
    StepLockstep(sender.suite, iv, h, data);
    got := receiver.Decrypt(h, cipher.value);
  }

  /** A whole connection direction: exactly the records before the first that cannot be encrypted arrive. */
  method Converse(sender: Implicit, receiver: Implicit, hs: seq<Header>, datas: seq<seq<byte>>)
      returns (received: seq<seq<byte>>)
    requires sender != receiver && sender.suite == receiver.suite && SuiteOk(sender.suite) && Sound(sender.suite)
    requires sender.iv == receiver.iv && |hs| == |datas|
    modifies sender, receiver
    ensures sender.iv == receiver.iv && |received| <= |datas| && received == datas[..|received|]
    ensures var steps := EncryptAll(sender.suite, old(sender.iv), hs, datas);
            && |received| <= |steps| && AllOut(steps[..|received|])
            && (|received| < |datas| ==> |received| < |steps| && steps[|received|].out.None?)
  {
    hide SuiteOk, Sound, EncryptStep, EncryptAll, AllOut, Aligned;
    received := [];
    ghost var steps := EncryptAll(sender.suite, sender.iv, hs, datas);
    AlignedStart(sender.suite, sender.iv, hs, datas);
    for n := 0 to |hs|
      invariant sender.iv == receiver.iv && received == datas[..n] && Aligned(sender.suite, sender.iv, hs, datas, n, steps)
    {
      AlignedStep(sender.suite, sender.iv, hs, datas, n, steps);
      var data := Pass(sender, receiver, hs[n], datas[n]);
      if data.None? {
        return;
      }
      received := received + [data.value];
    }
    assert Aligned(sender.suite, sender.iv, hs, datas, |hs|, steps);
    AlignedSize(sender.suite, sender.iv, hs, datas, |hs|, steps);
    assert datas[..|hs|] == datas;
  }

  /** The first n steps went through, and the others are those from the IV they led to. */
  ghost predicate Aligned(s: Suite, iv: seq<byte>, hs: seq<Header>, datas: seq<seq<byte>>, n: nat, steps: seq<Step>)
    requires SuiteOk(s)
  {
    && n <= |hs| == |datas| && n <= |steps| && AllOut(steps[..n])
    && steps[n..] == EncryptAll(s, iv, hs[n..], datas[n..])
  }

  lemma AlignedSize(s: Suite, iv: seq<byte>, hs: seq<Header>, datas: seq<seq<byte>>, n: nat, steps: seq<Step>)
    requires SuiteOk(s) && Aligned(s, iv, hs, datas, n, steps)
    ensures n <= |steps| && AllOut(steps[..n])
  {
  }

  lemma AlignedStart(s: Suite, iv: seq<byte>, hs: seq<Header>, datas: seq<seq<byte>>)
    requires SuiteOk(s) && |hs| == |datas|
    ensures Aligned(s, iv, hs, datas, 0, EncryptAll(s, iv, hs, datas))
  {
    hide EncryptAll, SuiteOk;
    assert hs[0..] == hs && datas[0..] == datas;
  }

  lemma AlignedStep(s: Suite, iv: seq<byte>, hs: seq<Header>, datas: seq<seq<byte>>, n: nat, steps: seq<Step>)
    requires SuiteOk(s) && n < |hs| == |datas| && Aligned(s, iv, hs, datas, n, steps)
    ensures n < |steps| && AllOut(steps[..n]) && steps[n] == EncryptStep(s, iv, hs[n], datas[n])
    ensures steps[n].out.Some? ==> Aligned(s, steps[n].iv, hs, datas, n + 1, steps)
  {
    hide SuiteOk, EncryptStep;
    assert hs[n..][1..] == hs[n + 1..] && datas[n..][1..] == datas[n + 1..];
    assert steps[n] == steps[n..][0] && steps[n + 1..] == steps[n..][1..];
  }

  lemma FailureKeepsIv(s: Suite, iv: seq<byte>, h: Header, data: seq<byte>)
    requires SuiteOk(s)
    ensures EncryptStep(s, iv, h, data).out.None? ==> EncryptStep(s, iv, h, data).iv == iv
  {
    hide Sealed;
  }

  lemma FirstOut(s: Suite, iv: seq<byte>, hs: seq<Header>, datas: seq<seq<byte>>)
    requires SuiteOk(s) && |hs| == |datas| && hs != []
    ensures var step := EncryptStep(s, iv, hs[0], datas[0]);
            AllOut(EncryptAll(s, iv, hs, datas)) ==> step.out.Some? && AllOut(EncryptAll(s, step.iv, hs[1..], datas[1..]))
  {
    hide EncryptStep, SuiteOk;
    var all := EncryptAll(s, iv, hs, datas);
    var step := EncryptStep(s, iv, hs[0], datas[0]);
    if AllOut(all) {
      assert all[0] == step;
      var rest := EncryptAll(s, step.iv, hs[1..], datas[1..]);
      assert all[1..] == rest;
      assert forall i :: 0 <= i < |rest| ==> rest[i] == all[i + 1];
    }
  }

  /** TLS 1.1 and later: a fresh IV goes in front of the record; nothing is carried over. */
  function SealedExplicit(s: Suite, h: Header, iv: Option<seq<byte>>, data: seq<byte>): Option<seq<byte>>
    requires SuiteOk(s)
  {
    if iv.None? then None else
    match Sealed(s, h, iv.value, data)
    case None => None
    case Some(cipher) => Some(iv.value + cipher)
  }

  function OpenedExplicit(s: Suite, h: Header, record: seq<byte>): Option<seq<byte>>
    requires SuiteOk(s)
  {
    if |record| < s.crypter.ivSize then None
    else Opened(s, h, record[..s.crypter.ivSize], record[s.crypter.ivSize..])
  }

  lemma ExplicitRoundTrip(s: Suite, h: Header, iv: seq<byte>, data: seq<byte>)
    requires SuiteOk(s) && Sound(s) && |iv| == s.crypter.ivSize && SealedExplicit(s, h, Some(iv), data).Some?
    ensures OpenedExplicit(s, h, SealedExplicit(s, h, Some(iv), data).value) == Some(data)
  {
    hide Opened;
    OpensSealed(s, h, iv, data);
    var cipher := Sealed(s, h, iv, data).value;
    hide Sealed;
    assert (iv + cipher)[..|iv|] == iv && (iv + cipher)[|iv|..] == cipher;
  }

  /** The IV is the generator's answer for the sequence number. */
  method EncryptExplicit(s: Suite, h: Header, iv: Option<seq<byte>>, data: seq<byte>) returns (out: Option<seq<byte>>)
    requires SuiteOk(s)
    ensures out == SealedExplicit(s, h, iv, data)
  {
    match s.signer.sign(Assoc(h, |data|) + data) {
      case None =>
        return None;
      case Some(mac) =>
        var padlen: byte := PadLen(|data| + s.signer.size + 1, s.crypter.blockSize);
        if iv.None? {
          return None;
        }
        var plain := data + mac + (Fill(padlen, padlen) + [padlen]);
        match s.crypter.encrypt(plain, iv.value) {
          case None =>
            return None;
          case Some(cipher) =>
            return Some(iv.value + cipher);
        }
    }
  }

  method DecryptExplicit(s: Suite, h: Header, record: seq<byte>) returns (out: Option<seq<byte>>)
    requires SuiteOk(s)
    ensures out == OpenedExplicit(s, h, record)
  {
    hide Unpadded, Authenticated;
    if |record| < s.crypter.ivSize {
      return None;
    }
    var iv := record[..s.crypter.ivSize];
    var cipher := record[s.crypter.ivSize..];
    if |cipher| < s.crypter.blockSize || |cipher| % s.crypter.blockSize != 0 {
      return None;
    }
    match s.crypter.decrypt(cipher, iv) {
      case None =>
        return None;
      case Some(plain) =>
        out := Strip(s, h, plain);
    }
  }

  // ----- what the MAC covers

  const U64_LIMIT: nat := U32_LIMIT * U32_LIMIT

  predicate InRange(h: Header) {
    h.version < 65536 && h.seqno < U64_LIMIT
  }

  /** The 13 bytes signed in front of the data: sequence number, content type, version and length, all big-endian. */
  lemma AssocLayout(h: Header, n: nat)
    requires InRange(h)
    ensures var a := Assoc(h, n);
            && |a| == 13
            && FromU32(a[..4]) * U32_LIMIT + FromU32(a[4..8]) == h.seqno
            && a[8] == h.kind && FromU16(a[9..11]) == h.version && FromU16(a[11..13]) == n % 65536
  {
    hide U32, FromU32, U16, FromU16;
    var a := Assoc(h, n);
    U32RoundTrip(h.seqno / U32_LIMIT);
    U32RoundTrip(h.seqno);
    U16RoundTrip(h.version);
    U16RoundTrip(n);
    assert a[..4] == U32(h.seqno / U32_LIMIT) && a[4..8] == U32(h.seqno);
    assert a[9..11] == U16(h.version) && a[11..13] == U16(n);
    HighHalf(h.seqno);
  }

  lemma HighHalf(n: nat)
    requires n < U64_LIMIT
    ensures n / U32_LIMIT % U32_LIMIT * U32_LIMIT + n % U32_LIMIT == n
  {
    assert n / U32_LIMIT < U32_LIMIT;
  }

  /** Different headers, or lengths that differ in 16 bits, are signed differently. */
  lemma AssocInjective(h: Header, n: nat, h': Header, n': nat)
    requires InRange(h) && InRange(h')
    ensures Assoc(h, n) == Assoc(h', n') <==> h == h' && n % 65536 == n' % 65536
  {
    hide FromU32, FromU16;
    AssocLayout(h, n);
    AssocLayout(h', n');
    if h == h' && n % 65536 == n' % 65536 {
      assert U16(n) == U16(n') by { LowHalf(n, n'); }
    }
    hide U16, U32;
  }

  lemma LowHalf(n: nat, n': nat)
    requires n % 65536 == n' % 65536
    ensures U16(n) == U16(n')
  {
    U16RoundTrip(n);
    U16RoundTrip(n');
    U16Injective(U16(n));
    U16Injective(U16(n'));
  }

  /** The signer accepts a signature for nothing but the data it was made for. */
  ghost predicate Unforgeable(s: Signer) {
    forall data, data', mac :: s.verify(data, mac) && s.sign(data') == Some(mac) ==> data == data'
  }

  /** A sealed record is the data, the MAC over header and data, and the padding, encrypted under the IV. */
  lemma SealedParts(s: Suite, h: Header, iv: seq<byte>, data: seq<byte>)
    requires SuiteOk(s)
    ensures match s.signer.sign(Assoc(h, |data|) + data)
            case None => Sealed(s, h, iv, data) == None
            case Some(mac) =>
              exists padlen: byte :: padlen < s.crypter.blockSize && PaddedUp(|data| + |mac|, padlen, s.crypter.blockSize) &&
                Sealed(s, h, iv, data) == s.crypter.encrypt(data + mac + Fill(padlen, padlen) + [padlen], iv)
  {
    match s.signer.sign(Assoc(h, |data|) + data) {
      case None =>
      case Some(mac) =>
        var padlen := PadFor(s, |data|);
        assert PaddedUp(|data| + |mac|, padlen, s.crypter.blockSize);
        assert data + mac + Fill(padlen, padlen) + [padlen] == data + mac + PadBytes(padlen);
    }
  }

  /** Padding and its length byte fill up the last block. */
  predicate PaddedUp(n: nat, padlen: nat, blockSize: nat)
    requires blockSize > 0
  {
    (n + padlen + 1) % blockSize == 0
  }

  /** A record opens under no other content type, version or sequence number than its own. */
  lemma WrongHeaderRefused(s: Suite, h: Header, h': Header, iv: seq<byte>, data: seq<byte>)
    requires SuiteOk(s) && Sound(s) && Unforgeable(s.signer) && InRange(h) && InRange(h') && h != h'
    requires Sealed(s, h, iv, data).Some?
    ensures Opened(s, h', iv, Sealed(s, h, iv, data).value) == None
  {
    hide Assoc, Unpadded, PadBytes, PadFor;
    var (signed, other) := (Assoc(h, |data|) + data, Assoc(h', |data|) + data);
    var mac := s.signer.sign(signed).value;
    var body := data + mac;
    UnpaddedPlain(body, PadFor(s, |data|));
    assert body[..|data|] == data && body[|data|..] == mac;
    AssocInjective(h, |data|, h', |data|);
    AssocLayout(h, |data|);
    AssocLayout(h', |data|);
    assert signed[..13] == Assoc(h, |data|) && other[..13] == Assoc(h', |data|);
  }

  /** So with the carried IV, and with the IV in front of the record. */
  lemma WrongHeaderRefusedInSteps(s: Suite, h: Header, h': Header, iv: seq<byte>, data: seq<byte>)
    requires SuiteOk(s) && Sound(s) && Unforgeable(s.signer) && InRange(h) && InRange(h') && h != h'
    requires Sealed(s, h, iv, data).Some?
    ensures EncryptStep(s, iv, h, data).out.Some? ==> DecryptStep(s, iv, h', EncryptStep(s, iv, h, data).out.value).out == None
    ensures |iv| == s.crypter.ivSize ==> OpenedExplicit(s, h', SealedExplicit(s, h, Some(iv), data).value) == None
  {
    hide Opened;
    WrongHeaderRefused(s, h, h', iv, data);
    var cipher := Sealed(s, h, iv, data).value;
    hide Sealed;
    assert (iv + cipher)[..|iv|] == iv && (iv + cipher)[|iv|..] == cipher;
  }

  /**
   * The IV carried on is the end of the last record, on both sides; a record
   * that cannot be sent, or is not whole blocks and long enough, leaves it.
   */
  lemma IvCarried(s: Suite, iv: seq<byte>, h: Header, data: seq<byte>, cipher: seq<byte>)
    requires SuiteOk(s)
    ensures var e := EncryptStep(s, iv, h, data);
            match e.out
            case None => e.iv == iv
            case Some(c) => EndsWith(c, e.iv, |iv|)
    ensures var d := DecryptStep(s, iv, h, cipher);
            if |cipher| >= s.crypter.blockSize && |cipher| >= |iv| && |cipher| % s.crypter.blockSize == 0 then
              EndsWith(cipher, d.iv, |iv|)
            else d == Step(None, iv)
  {
    hide Opened, Sealed;
  }

  /** The last n bytes. */
  predicate EndsWith(s: seq<byte>, tail: seq<byte>, n: nat) {
    n == |tail| <= |s| && s[|s| - n..] == tail
  }
}
