/**
 * The TLS stack's byte interface: `process` reassembles records out of whatever
 * pieces the transport hands over, `build` serialises the records the upper
 * layers offer and hands them out in pieces.
 */
module TlsStack {
  import opened Bytes
  import opened TlsRecords

  /** What the protection layer answers when asked for the next record to send. */
  datatype Outgoing = Emit(typ: byte, data: seq<byte>) | Refuse(status: Status)

  function Fragments(rs: seq<Record>): seq<Fragment> {
    seq(|rs|, i requires 0 <= i < |rs| => Fragment(rs[i].typ, rs[i].data))
  }

  datatype Taken = Taken(records: seq<Record>, status: Status)

  /**
   * Handing records up one by one: the upper layers see every record until the
   * first one they do not answer with NEED_MORE.
   */
  function HandUp(protection: seq<Fragment> -> Status, done: seq<Record>, rs: seq<Record>): Taken
    decreases |rs|
  {
    if rs == [] then Taken(done, NeedMore) else
    var now := done + [rs[0]];
    var status := protection(Fragments(now));
    if status != NeedMore then Taken(now, status) else HandUp(protection, now, rs[1..])
  }

  /** With upper layers that always want more, everything is handed up. */
  lemma {:induction false} HandUpAll(protection: seq<Fragment> -> Status, done: seq<Record>, rs: seq<Record>)
    requires forall fs :: protection(fs) == NeedMore
    ensures HandUp(protection, done, rs) == Taken(done + rs, NeedMore)
    decreases |rs|
  {
    if rs == [] {
      assert done + rs == done;
    } else {
      HandUpAll(protection, done + [rs[0]], rs[1..]);
      assert done + [rs[0]] + rs[1..] == done + rs;
    }
  }

  /** The upper layers want more after record k of the new ones. */
  predicate Wanted(protection: seq<Fragment> -> Status, done: seq<Record>, rs: seq<Record>, k: nat)
    requires k < |rs|
  {
    protection(Fragments(done + rs[..k + 1])) == NeedMore
  }

  predicate FirstUnwanted(protection: seq<Fragment> -> Status, done: seq<Record>, rs: seq<Record>, k: nat) {
    k < |rs| && !Wanted(protection, done, rs, k) && forall j :: 0 <= j < k ==> Wanted(protection, done, rs, j)
  }

  /** Handing up ends behind the first record that is not answered with NEED_MORE, with that answer. */
  lemma {:induction false} HandUpStops(protection: seq<Fragment> -> Status, done: seq<Record>, rs: seq<Record>)
    ensures (forall k: nat :: k < |rs| ==> Wanted(protection, done, rs, k)) ==>
              HandUp(protection, done, rs) == Taken(done + rs, NeedMore)
    ensures forall k: nat :: FirstUnwanted(protection, done, rs, k) ==>
              HandUp(protection, done, rs) == Taken(done + rs[..k + 1], protection(Fragments(done + rs[..k + 1])))
    decreases |rs|
  {
    if rs == [] {
      assert done + rs == done;
    } else {
      var now := done + [rs[0]];
      assert done + rs[..1] == now;
      HandUpStops(protection, now, rs[1..]);
      assert now + rs[1..] == done + rs;
      assert Wanted(protection, done, rs, 0) <==> protection(Fragments(now)) == NeedMore;
      forall k: nat | k < |rs| - 1
        ensures now + rs[1..][..k + 1] == done + rs[..k + 2]
        ensures Wanted(protection, now, rs[1..], k) == Wanted(protection, done, rs, k + 1)
      {
        assert [rs[0]] + rs[1..][..k + 1] == rs[..k + 2];
        assert now + rs[1..][..k + 1] == done + rs[..k + 2];
      }
      forall k: nat | FirstUnwanted(protection, done, rs, k)
        ensures HandUp(protection, done, rs) == Taken(done + rs[..k + 1], protection(Fragments(done + rs[..k + 1])))
      {
        assert k > 0 ==> Wanted(protection, done, rs, 0) && FirstUnwanted(protection, now, rs[1..], k - 1);
      }
    }
  }

  datatype Collected = Collected(bytes: seq<byte>, pending: seq<Outgoing>, stop: Status)

  /** Serialises what the upper layers offer, up to the first answer other than NEED_MORE. */
  function Collect(version: nat, out: seq<byte>, pending: seq<Outgoing>): Collected
    decreases |pending|
  {
    if pending == [] then Collected(out, [], InvalidState) else
    match pending[0]
    case Refuse(status) => Collected(out, pending[1..], status)
    case Emit(typ, data) => Collect(version, out + Encode(Record(typ, version, data)), pending[1..])
  }

  /** The records behind a list of offers that contains no refusal. */
  function Offered(version: nat, pending: seq<Outgoing>): seq<Record>
    requires forall o <- pending :: o.Emit?
  {
    seq(|pending|, i requires 0 <= i < |pending| => Record(pending[i].typ, version, pending[i].data))
  }

  lemma {:induction false} CollectAll(version: nat, out: seq<byte>, pending: seq<Outgoing>)
    requires forall o <- pending :: o.Emit?
    ensures Collect(version, out, pending) == Collected(out + EncodeAll(Offered(version, pending)), [], InvalidState)
    decreases |pending|
  {
    var rs := Offered(version, pending);
    if pending == [] {
      assert out + EncodeAll(rs) == out;
    } else {
      var r := Record(pending[0].typ, version, pending[0].data);
      CollectAll(version, out + Encode(r), pending[1..]);
      assert rs[1..] == Offered(version, pending[1..]) && rs[0] == r;
      assert out + EncodeAll(rs) == (out + Encode(r)) + EncodeAll(rs[1..]);
    }
  }

  /** A refusal ends collecting, with what was offered before it serialised. */
  lemma {:induction false} CollectRefused(version: nat, out: seq<byte>, front: seq<Outgoing>, status: Status, rest: seq<Outgoing>)
    requires forall o <- front :: o.Emit?
    ensures Collect(version, out, front + [Refuse(status)] + rest)
         == Collected(out + EncodeAll(Offered(version, front)), rest, status)
    decreases |front|
  {
    var pending, rs := front + [Refuse(status)] + rest, Offered(version, front);
    if front == [] {
      assert out + EncodeAll(rs) == out && pending[1..] == rest;
    } else {
      var r := Record(front[0].typ, version, front[0].data);
      assert pending[1..] == front[1..] + [Refuse(status)] + rest;
      CollectRefused(version, out + Encode(r), front[1..], status, rest);
      assert rs[1..] == Offered(version, front[1..]) && rs[0] == r;
      assert out + EncodeAll(rs) == (out + Encode(r)) + EncodeAll(rs[1..]);
    }
  }

  /** The sending half of the stack. */
  datatype Sending = Sending(output: seq<byte>, outpos: nat, pending: seq<Outgoing>)

  ghost predicate SendingValid(s: Sending) {
    && (s.output == [] ==> s.outpos == 0)
    && (s.output != [] ==> s.outpos < |s.output|)
    && (forall o <- s.pending :: o.Refuse? ==> o.status != NeedMore && o.status != InvalidState)
  }

  datatype Built = Built(status: Status, data: seq<byte>, msglen: nat, next: Sending)

  /** Hands out at most n bytes of a non-empty output. */
  function Chop(output: seq<byte>, outpos: nat, pending: seq<Outgoing>, n: nat, msglen: nat): Built
    requires outpos < |output|
  {
    var len := Min(n, |output| - outpos);
    var data := output[outpos..outpos + len];
    if outpos + len == |output| then Built(AlreadyDone, data, msglen, Sending([], 0, pending))
    else Built(NeedMore, data, msglen, Sending(output, outpos + len, pending))
  }

  function BuildSome(version: nat, s: Sending, n: nat): Built
    requires s.output != [] ==> s.outpos < |s.output|
  {
    if s.output != [] then Chop(s.output, s.outpos, s.pending, n, 0) else
    var c := Collect(version, [], s.pending);
    if c.stop != InvalidState then Built(c.stop, [], 0, Sending(c.bytes, 0, c.pending))
    else if c.bytes == [] then Built(InvalidState, [], 0, Sending([], 0, c.pending))
    else Chop(c.bytes, 0, c.pending, n, |c.bytes|)
  }

  /** Upper layers that refuse to build end the call with their answer; what they had offered stays for the next call. */
  lemma BuildRefused(version: nat, front: seq<Outgoing>, status: Status, rest: seq<Outgoing>, n: nat)
    requires (forall o <- front :: o.Emit?) && status != InvalidState
    ensures BuildSome(version, Sending([], 0, front + [Refuse(status)] + rest), n)
         == Built(status, [], 0, Sending(EncodeAll(Offered(version, front)), 0, rest))
  {
    CollectRefused(version, [], front, status, rest);
    assert [] + EncodeAll(Offered(version, front)) == EncodeAll(Offered(version, front));
  }

  class Tls {
    const version: nat
    const protection: seq<Fragment> -> Status
    const complete: seq<Fragment> -> bool

    /** Records handed to the protection layer so far. */
    var delivered: seq<Record>

    var input: array<byte>
    var inpos: nat
    const head: array<byte>
    var headpos: nat

    var output: seq<byte>
    var outpos: nat
    /** Answers the protection layer has ready for `build`. */
    var pending: seq<Outgoing>

    ghost predicate Valid()
      reads this, head, input
    {
      && head.Length == HEADER && head != input
      && headpos < HEADER
      && (headpos > 0 ==> input.Length == 0)
      && (input.Length == 0 ==> inpos == 0)
      && (input.Length > 0 ==> InputValid() && HEADER <= inpos)
      && (input.Length > 0 && inpos == input.Length ==> inpos == HEADER)
      && SendingValid(Send())
    }

    ghost predicate InputValid()
      reads this, input
    {
      && inpos <= input.Length
      && HEADER <= input.Length
      && (HEADER <= inpos ==> input.Length == HEADER + BodyLength(input[..inpos]))
    }

    /** The bytes received but not yet delivered. */
    ghost function Held(): seq<byte>
      requires Valid()
      reads this, head, input
    {
      if headpos > 0 then head[..headpos] else input[..inpos]
    }

    ghost function Send(): Sending
      reads this
    {
      Sending(output, outpos, pending)
    }

    constructor (version: nat, protection: seq<Fragment> -> Status, complete: seq<Fragment> -> bool,
                 pending: seq<Outgoing>)
      requires forall o <- pending :: o.Refuse? ==> o.status != NeedMore && o.status != InvalidState
      ensures Valid() && fresh(head) && fresh(input) && Held() == [] && delivered == []
      ensures Send() == Sending([], 0, pending)
      ensures this.version == version && this.protection == protection && this.complete == complete
    {
      this.version, this.protection, this.complete := version, protection, complete;
      delivered := [];
      head := new byte[HEADER];
      input := new byte[0];
      headpos, inpos, outpos := 0, 0, 0;
      output, this.pending := [], pending;
    }

    method Deliver(r: Record) returns (status: Status)
      modifies this`delivered
      ensures delivered == old(delivered) + [r] && status == protection(Fragments(delivered))
    {
      delivered := delivered + [r];
      status := protection(Fragments(delivered));
    }

    /** Fills up a partial header; once complete the input buffer takes over. */
    method CompleteHeader(buf: seq<byte>) returns (rest: seq<byte>)
      requires Valid() && headpos > 0
      modifies this`headpos, this`input, this`inpos, head
      ensures Valid() && (input == old(input) || fresh(input))
      ensures headpos > 0 ==> rest == []
      ensures Held() + rest == old(Held()) + buf
      ensures |Held()| == Min(HEADER, |old(Held())| + |buf|)
    {
      var len := Min(|buf|, HEADER - headpos);
      CopyInto(head, headpos, buf[..len]);
      assert head[..headpos + len] == old(head[..headpos]) + buf[..len];
      headpos := headpos + len;
      rest := buf[len..];
      assert head[..headpos] + rest == old(Held()) + buf;
      if headpos == HEADER {
        var n := FromU16(head[3..5]);
        assert head[..] == head[..HEADER];
        input := new byte[n + HEADER];
        CopyInto(input, 0, head[..]);
        inpos := HEADER;
        headpos := 0;
        assert input[..HEADER] == head[..];
        assert input[..inpos][3..5] == head[3..5];
      }
    }

    /** Delivers complete records straight out of the caller's buffer. */
    method Inline(buf: seq<byte>) returns (rest: seq<byte>, status: Status)
      requires Valid() && headpos == 0 && input.Length == 0
      modifies this`delivered
      ensures Valid()
      ensures HandUp(protection, old(delivered), Parse(buf).records)
           == if status == NeedMore then HandUp(protection, delivered, []) else Taken(delivered, status)
      ensures status == NeedMore ==> rest == Parse(buf).rest && !StartsWithRecord(rest)
      ensures |rest| <= |buf|
    {
      hide Parse, HandUp;
      rest, status := buf, NeedMore;
      ghost var all := HandUp(protection, delivered, Parse(buf).records);
      while StartsWithRecord(rest)
        invariant Valid() && status == NeedMore && |rest| <= |buf|
        invariant HandUp(protection, delivered, Parse(rest).records) == all
        invariant Parse(rest).rest == Parse(buf).rest
        decreases |rest|
      {
        var len := BodyLength(rest);
        ParseOne(rest);
        HandUpOne(protection, delivered, FirstRecord(rest), Parse(rest[HEADER + len..]).records);
        status := Deliver(FirstRecord(rest));
        if status != NeedMore {
          return;
        }
        rest := rest[HEADER + len..];
      }
      ParseIncomplete(rest);
    }

    /** Copies into the allocated input buffer and delivers the record once it is full. */
    method Buffer(buf: seq<byte>) returns (rest: seq<byte>, status: Status)
      requires headpos == 0 && input.Length > 0 && head.Length == HEADER && head != input
      requires InputValid() && SendingValid(Send())
      requires inpos == 0 ==> |buf| >= HEADER && input.Length == HEADER + BodyLength(buf)
      requires 0 < inpos ==> HEADER <= inpos
      requires buf != []
      modifies this`delivered, this`input, this`inpos, input
      ensures Valid() && (input == old(input) || fresh(input))
      ensures |rest| <= |buf| && (|rest| == |buf| ==> input.Length == 0 && old(inpos == input.Length))
      ensures rest != [] ==> input.Length == 0
      ensures input.Length > 0 ==> inpos < input.Length
      ensures HandUp(protection, old(delivered), Parse(old(input[..inpos]) + buf).records)
           == if status == NeedMore then HandUp(protection, delivered, Parse(Held() + rest).records)
              else Taken(delivered, status)
      ensures status == NeedMore ==> Parse(old(input[..inpos]) + buf).rest == Parse(Held() + rest).rest
      ensures status != NeedMore ==> Held() == []
    {
      hide Parse, HandUp, SendingValid;
      ghost var stream := input[..inpos] + buf;
      var len := Min(|buf|, input.Length - inpos);
      CopyInto(input, inpos, buf[..len]);
      assert input[..inpos + len] == old(input[..inpos]) + buf[..len];
      inpos := inpos + len;
      rest := buf[len..];
      status := NeedMore;
      assert stream == input[..inpos] + rest;
      LengthOfPrefix(old(input[..inpos]), buf, len);
      if input.Length == inpos {
        assert input[..] == input[..inpos];
        status := DeliverInput(rest);
        assert input[..inpos] + rest == rest;
      }
    }

    /** Hands up the record in the full input buffer and frees the buffer. */
    method DeliverInput(ghost rest: seq<byte>) returns (status: Status)
      requires input.Length == inpos && HEADER <= inpos && InputValid()
      modifies this`delivered, this`input, this`inpos
      ensures fresh(input) && input.Length == 0 && inpos == 0
      ensures HandUp(protection, old(delivered), Parse(old(input[..]) + rest).records)
           == if status == NeedMore then HandUp(protection, delivered, Parse(rest).records) else Taken(delivered, status)
      ensures Parse(old(input[..]) + rest).rest == Parse(rest).rest
    {
      hide Parse, HandUp;
      var whole := input[..];
      assert whole == input[..inpos];
      ParseJoined(whole, rest);
      HandUpOne(protection, delivered, FirstRecord(whole), Parse(rest).records);
      status := Deliver(FirstRecord(whole));
      input := new byte[0];
      inpos := 0;
    }

    /** One pass of the loop: records inline, then a partial header or the input buffer. */
    method Take(buf: seq<byte>) returns (rest: seq<byte>, status: Status)
      requires Valid() && headpos == 0 && buf != []
      modifies this`delivered, this`input, this`inpos, this`headpos, head, input
      ensures Valid() && (input == old(input) || fresh(input))
      ensures status == NeedMore ==> |rest| < |buf| || (|rest| == |buf| && input.Length < old(input.Length))
      ensures headpos > 0 ==> rest == []
      ensures status == NeedMore && rest == [] ==> !StartsWithRecord(Held())
      ensures HandUp(protection, old(delivered), Parse(old(Held()) + buf).records)
           == if status == NeedMore then HandUp(protection, delivered, Parse(Held() + rest).records)
              else Taken(delivered, status)
      ensures status == NeedMore ==> Parse(old(Held()) + buf).rest == Parse(Held() + rest).rest
      ensures status != NeedMore ==> Held() == []
    {
      hide Parse, HandUp, SendingValid;
      rest := buf;
      if input.Length == 0 {
        assert Held() + rest == rest;
        rest, status := Inline(rest);
        if status != NeedMore {
          return;
        }
        ParseIncomplete(rest);
        if |rest| < HEADER {
          CopyInto(head, 0, rest);
          headpos := |rest|;
          assert head[..headpos] == rest;
          rest := [];
          assert Held() + rest == Held();
          return;
        }
        input := new byte[BodyLength(rest) + HEADER];
        inpos := 0;
        assert input[..inpos] + rest == rest;
      }
      rest, status := Buffer(rest);
    }

    method Process(buf: seq<byte>) returns (status: Status)
      requires Valid()
      modifies this`delivered, this`input, this`inpos, this`headpos, head, input
      ensures Valid() && (input == old(input) || fresh(input))
      ensures Taken(delivered, status) == HandUp(protection, old(delivered), Feed(old(Held()), buf).records)
      ensures Held() == if status == NeedMore then Feed(old(Held()), buf).rest else []
    {
      hide Parse, HandUp, Feed, SendingValid;
      ghost var stream := Held() + buf;
      ghost var fed := Feed(Held(), buf);
      var rest := buf;
      status := NeedMore;
      if headpos > 0 {
        rest := CompleteHeader(buf);
      }
      if rest == [] {
        assert Held() == stream by {
          assert Held() + rest == Held();
        }
        FedWithoutLoop(old(Held()), buf, stream);
        HandUpNone(protection, delivered);
        return;
      }
      FedByLoop(old(Held()), buf);
      while rest != []
        invariant Valid() && (input == old(input) || fresh(input))
        invariant status == NeedMore && (headpos > 0 ==> rest == [])
        invariant rest == [] ==> !StartsWithRecord(Held())
        invariant HandUp(protection, delivered, Parse(Held() + rest).records)
               == HandUp(protection, old(delivered), fed.records)
        invariant Parse(Held() + rest).rest == fed.rest
        decreases |rest|, input.Length
      {
        rest, status := Take(rest);
        if status != NeedMore {
          return;
        }
      }
      assert Held() + [] == Held();
      ParseIncomplete(Held());
      HandUpNone(protection, delivered);
    }

    /** Asks the upper layers for records until they have none or refuse. */
    method QueryUpper() returns (status: Status)
      requires SendingValid(Send()) && output == []
      modifies this`output, this`pending
      ensures Collected(output, pending, status) == Collect(version, [], old(pending))
      ensures status != NeedMore
    {
      while true
        invariant Collect(version, output, pending) == Collect(version, [], old(pending))
        invariant forall o <- pending :: o.Refuse? ==> o.status != NeedMore && o.status != InvalidState
        decreases |pending|
      {
        if pending == [] {
          return InvalidState;
        }
        var answer := pending[0];
        pending := pending[1..];
        match answer {
          case Emit(typ, data) =>
            output := output + Encode(Record(typ, version, data));
          case Refuse(refusal) =>
            return refusal;
        }
      }
    }

    method Build(buflen: nat) returns (status: Status, data: seq<byte>, msglen: nat)
      requires Valid()
      modifies this`output, this`outpos, this`pending
      ensures Valid()
      ensures Built(status, data, msglen, Send()) == BuildSome(version, old(Send()), buflen)
    {
      hide Collect, Encode;
      data, msglen := [], 0;
      if output == [] {
        status := QueryUpper();
        CollectKeepsRefusals(version, [], old(pending));
        if status != InvalidState || output == [] {
          return;
        }
        msglen := |output|;
      }
      status, data := HandOut(buflen);
    }

    /** Hands out the next piece of a non-empty output. */
    method HandOut(buflen: nat) returns (status: Status, data: seq<byte>)
      requires output != [] && outpos < |output|
      modifies this`output, this`outpos
      ensures var b := Chop(old(output), old(outpos), pending, buflen, 0);
              status == b.status && data == b.data && Send() == b.next
    {
      var len := Min(buflen, |output| - outpos);
      data := output[outpos..outpos + len];
      outpos := outpos + len;
      status := NeedMore;
      if outpos == |output| {
        output, outpos := [], 0;
        status := AlreadyDone;
      }
    }
  }

  lemma FedWithoutLoop(held: seq<byte>, buf: seq<byte>, stream: seq<byte>)
    requires stream == held + buf
    requires buf == [] || (0 < |held| < HEADER && |held| + |buf| <= HEADER)
    ensures Feed(held, buf) == Parsed([], stream)
  {
  }

  /** The length field sits in the bytes already held or, failing that, in those just copied. */
  lemma LengthOfPrefix(held: seq<byte>, buf: seq<byte>, len: nat)
    requires len <= |buf|
    ensures |held| >= HEADER ==> BodyLength(held + buf[..len]) == BodyLength(held)
    ensures held == [] && len >= HEADER ==> BodyLength(held + buf[..len]) == BodyLength(buf)
  {
    hide FromU16;
    if |held| >= HEADER {
      assert (held + buf[..len])[3..5] == held[3..5];
    } else if held == [] && len >= HEADER {
      assert (held + buf[..len])[3..5] == buf[3..5];
    }
  }

  lemma ParseOne(s: seq<byte>)
    requires StartsWithRecord(s)
    ensures var tail := Parse(s[HEADER + BodyLength(s)..]);
            Parse(s) == Parsed([FirstRecord(s)] + tail.records, tail.rest)
  {
  }

  lemma ParseJoined(whole: seq<byte>, rest: seq<byte>)
    requires |whole| >= HEADER && |whole| == HEADER + BodyLength(whole)
    ensures Parse(whole + rest) == Parsed([FirstRecord(whole)] + Parse(rest).records, Parse(rest).rest)
  {
    hide Parse, FromU16;
    var s := whole + rest;
    assert s[3..5] == whole[3..5] && s[1..3] == whole[1..3];
    assert HEADER + BodyLength(s) == |whole|;
    assert s[HEADER..|whole|] == whole[HEADER..|whole|];
    assert FirstRecord(s) == FirstRecord(whole);
    assert s[|whole|..] == rest;
    ParseOne(s);
  }

  lemma HandUpOne(protection: seq<Fragment> -> Status, done: seq<Record>, r: Record, rs: seq<Record>)
    ensures HandUp(protection, done, [r] + rs) ==
            var now := done + [r];
            var status := protection(Fragments(now));
            if status == NeedMore then HandUp(protection, now, rs) else Taken(now, status)
  {
    assert ([r] + rs)[1..] == rs;
  }

  lemma FedByLoop(held: seq<byte>, buf: seq<byte>)
    requires buf != [] && (0 < |held| < HEADER ==> |held| + |buf| > HEADER)
    ensures Feed(held, buf) == Parse(held + buf)
  {
  }

  lemma HandUpNone(protection: seq<Fragment> -> Status, done: seq<Record>)
    ensures HandUp(protection, done, []) == Taken(done, NeedMore)
  {
  }

  lemma {:induction false} CollectKeepsRefusals(version: nat, out: seq<byte>, pending: seq<Outgoing>)
    ensures forall o <- Collect(version, out, pending).pending :: o in pending
    decreases |pending|
  {
    if pending != [] && pending[0].Emit? {
      CollectKeepsRefusals(version, out + Encode(Record(pending[0].typ, version, pending[0].data)), pending[1..]);
    }
  }
}
