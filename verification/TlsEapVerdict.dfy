/**
 * What an EAP-TLS, TTLS or PEAP endpoint answers to any packet: the verdict that
 * ends the method, and the bytes on the wire.
 */
module TlsEapVerdict {
  import opened Bytes
  import opened TlsRecords
  import opened TlsStack
  import opened TlsEap
  import opened TlsEapTransfer

  /** How much of the stack's output fits the next packet. */
  function Room(c: Config, v: View): nat
    requires c.fragSize >= 10
  {
    c.fragSize - if v.firstFragment then 10 else 6
  }

  /** An EAP packet with type and flags whose length field is right. */
  predicate WithHeader(pkt: seq<byte>) {
    |pkt| >= 6 && (pkt[2] as int) * 256 + pkt[3] == |pkt|
  }

  /** The start flag, of value 32. */
  predicate StartSet(pkt: seq<byte>)
    requires |pkt| >= 6
  {
    pkt[5] / 32 % 2 == 1
  }

  lemma HeaderRead(pkt: seq<byte>)
    ensures WellFormedPacket(pkt) <==> WithHeader(pkt)
    ensures |pkt| >= 6 ==> (HasFlag(pkt[5], FLAG_START) <==> StartSet(pkt))
  {
    if |pkt| >= 6 {
      assert pkt[2..4] == [pkt[2], pkt[3]];
    }
  }

  /**
   * Every packet counts against the limit, if there is one. Beyond the limit, or
   * without a right header, it fails and nothing else is changed.
   */
  lemma EveryPacketCounts(c: Config, v: View, stack: seq<byte>, pkt: seq<byte>)
    requires Runnable(c, v, stack)
    ensures var (step, n) := (Receive(c, v, stack, pkt), v.processed + if c.maxMsgCount != 0 then 1 else 0);
            && step.view.processed == n
            && ((c.maxMsgCount != 0 && n > c.maxMsgCount) || !WithHeader(pkt) ==> step == Step(v.(processed := n), Failed, []))
  {
    HeaderRead(pkt);
    hide BuildSome, Packet, Body, FromU16, HasFlag, Feed, HandUp, Payload;
  }

  /** Code, identifier, length, type and flags of a packet sent in answer to one with the given identifier. */
  ghost predicate OnWire(c: Config, before: byte, received: byte, steps: nat, out: seq<byte>, after: byte) {
    && |out| >= 6
    && out[0] == (if c.isServer then 1 else 2)
    && out[1] == after == (if c.isServer then (before as int + steps) % 256 else received)
    && (|out| <= 65535 ==> (out[2] as int) * 256 + out[3] == |out|)
    && out[4] == (match c.typ case EapTls => 13 case EapTtls => 21 case EapPeap => 25)
    && out[5] in {0, 64, 128, 192}
  }

  /**
   * An answer: the next fragment if the stack has output, else an
   * acknowledgement, which also hides a peer's failure; other answers of the
   * stack are final. Every attempt to build moves a server's identifier on.
   */
  ghost predicate Answered(c: Config, v: View, received: byte, b: Status, step: Step) {
    if b == NeedMore || b == AlreadyDone then
      step.status == NeedMore && OnWire(c, v.identifier, received, 1, step.out, step.view.identifier)
    else if b == InvalidState || (b == Failed && !c.isServer) then
      step.status == NeedMore && OnWire(c, v.identifier, received, 2, step.out, step.view.identifier) && |step.out| == 6 && step.out[5] == 0
    else step.status == b && step.out == []
  }

  lemma PacketOnWire(c: Config, before: byte, received: byte, steps: nat, id: byte, flags: byte, body: seq<byte>)
    requires id == (if c.isServer then (before as int + steps) % 256 else received) && flags in {0, 64, 128, 192}
    ensures OnWire(c, before, received, steps, Packet(Code(c), id, TypeCode(c.typ), flags, body), id)
  {
    U16RoundTrip(EAP_HEADER + |body|);
  }

  lemma RespondAnswers(c: Config, v: View, w: View, received: byte, stack: seq<byte>)
    requires Runnable(c, w, stack) && w.identifier == (if c.isServer then v.identifier else received)
    ensures Answered(c, v, received, BuildSome(c.version, w.send, Room(c, w)).status, Respond(c, w, stack))
    ensures Respond(c, w, stack).view.delivered == w.delivered && Respond(c, w, stack).view.held == w.held
  {
    hide BuildSome, Body, Packet, OnWire;
    BuildSomeBounds(c.version, w.send, Room(c, w));
    var b := BuildSome(c.version, w.send, Room(c, w));
    var id := NextIdentifier(c, w);
    if b.status == NeedMore || b.status == AlreadyDone {
      var more := b.status == NeedMore;
      var announce := w.firstFragment && (more || c.includeLength);
      var flags: byte := (if announce then 128 else 0) + (if more then 64 else 0);
      PacketOnWire(c, v.identifier, received, 1, id, flags, Body(stack, w.firstFragment, announce, b.msglen, b.data));
    } else {
      var again: byte := if c.isServer then (id as int + 1) % 256 else id;
      PacketOnWire(c, v.identifier, received, 2, again, 0, []);
      assert |Packet(Code(c), again, TypeCode(c.typ), 0, [])| == 6 && Packet(Code(c), again, TypeCode(c.typ), 0, [])[5] == 0 by {
        AckSize(Code(c), again, TypeCode(c.typ));
      }
    }
  }

  lemma AckSize(code: byte, id: byte, typ: byte)
    ensures |Packet(code, id, typ, 0, [])| == 6 && Packet(code, id, typ, 0, [])[5] == 0
  {
  }

  /** A start packet opens the flight of the endpoint that gets it. */
  lemma StartVerdict(c: Config, v: View, stack: seq<byte>, pkt: seq<byte>)
    requires Runnable(c, v, stack) && MayProcess(c, v, 1) && WithHeader(pkt) && StartSet(pkt)
    ensures var step := Receive(c, v, stack, pkt);
            && Answered(c, v, pkt[1], BuildSome(c.version, v.send, Room(c, v)).status, step)
            && step.view.delivered == v.delivered
  {
    HeaderRead(pkt);
    hide BuildSome, Respond, FromU16, HasFlag;
    var counted := if c.maxMsgCount != 0 then v.(processed := v.processed + 1) else v;
    RespondAnswers(c, v, if c.isServer then counted else counted.(identifier := pkt[1]), pkt[1], stack);
  }

  /**
   * An acknowledgement gets the next fragment; without output it is the end, a
   * success if and only if TLS is complete.
   */
  lemma AckVerdict(c: Config, v: View, stack: seq<byte>, pkt: seq<byte>)
    requires Runnable(c, v, stack) && MayProcess(c, v, 1) && WithHeader(pkt) && |pkt| == 6 && !StartSet(pkt)
    ensures var (step, b) := (Receive(c, v, stack, pkt), BuildSome(c.version, v.send, Room(c, v)).status);
            && step.view.delivered == v.delivered
            && if b == NeedMore || b == AlreadyDone then
                 step.status == NeedMore && OnWire(c, v.identifier, pkt[1], 1, step.out, step.view.identifier)
               else
                 && step.out == []
                 && step.status == if b == InvalidState && c.complete(Fragments(v.delivered)) then Success else b
  {
    HeaderRead(pkt);
    hide BuildSome, FromU16, HasFlag, Body, Packet, OnWire;
    BuildSomeBounds(c.version, v.send, Room(c, v));
    var b := BuildSome(c.version, v.send, Room(c, v));
    var w := if c.isServer then v else v.(identifier := pkt[1]);
    if b.status == NeedMore || b.status == AlreadyDone {
      var more := b.status == NeedMore;
      var announce := v.firstFragment && (more || c.includeLength);
      var flags: byte := (if announce then 128 else 0) + (if more then 64 else 0);
      PacketOnWire(c, v.identifier, pkt[1], 1, NextIdentifier(c, w), flags, Body(stack, v.firstFragment, announce, b.msglen, b.data));
    }
  }

  /**
   * A packet with payload: the records it completes are handed up first. If the
   * upper layers then want more there is an answer; if they report success the
   * method succeeds if and only if TLS is complete, and fails otherwise; any
   * other report is final.
   */
  lemma DataVerdict(c: Config, v: View, stack: seq<byte>, pkt: seq<byte>)
    requires Runnable(c, v, stack) && MayProcess(c, v, 1) && WithHeader(pkt) && |pkt| > 6 && !StartSet(pkt)
    requires Payload(c.typ, pkt).0
    ensures var step := Receive(c, v, stack, pkt);
            var taken := HandUp(c.protection, v.delivered, Feed(v.held, Payload(c.typ, pkt).1).records);
            var b := BuildSome(c.version, v.send, Room(c, v)).status;
            && step.view.delivered == taken.records
            && step.view.held == (if taken.status == NeedMore then Feed(v.held, Payload(c.typ, pkt).1).rest else [])
            && (taken.status == NeedMore ==> Answered(c, v, pkt[1], b, step))
            && (taken.status == Success ==>
                  step.out == [] && step.status == if c.complete(Fragments(taken.records)) then Success else Failed)
            && (taken.status != NeedMore && taken.status != Success ==> step.out == [] && step.status == taken.status)
            && (step.status == Success <==>
                  || (taken.status == Success && c.complete(Fragments(taken.records)))
                  || (taken.status == NeedMore && b == Success))
  {
    HeaderRead(pkt);
    hide BuildSome, Respond, FromU16, HasFlag, Feed, HandUp, Payload;
    var fed := Feed(v.held, Payload(c.typ, pkt).1);
    var taken := HandUp(c.protection, v.delivered, fed.records);
    if taken.status == NeedMore {
      var counted := if c.maxMsgCount != 0 then v.(processed := v.processed + 1) else v;
      var w := if c.isServer then counted else counted.(identifier := pkt[1]);
      RespondAnswers(c, v, w.(delivered := taken.records, held := fed.rest), pkt[1], stack);
    }
  }

  /** The flags, version and length field of a packet, and when its payload is taken. */
  lemma PayloadTaken(typ: EapType, pkt: seq<byte>)
    requires |pkt| >= 6
    ensures var announced := if |pkt| >= 10 then (((pkt[6] as int) * 256 + pkt[7]) * 256 + pkt[8]) * 256 + pkt[9] else 0;
            var skip := if pkt[5] < 128 then 6 else 10;
            var taken := Payload(typ, pkt);
            && (taken.0 <==> && (typ == EapTls || pkt[5] % 8 == 0)
                             && (pkt[5] < 128 || (|pkt| >= 10 && |pkt| - 10 <= announced <= 73728)))
            && (taken.0 ==> taken.1 == pkt[skip..])
  {
    assert HasFlag(pkt[5], 128) <==> pkt[5] >= 128;
    if |pkt| >= 10 {
      assert pkt[6..10][..2] == [pkt[6], pkt[7]] && pkt[6..10][2..] == [pkt[8], pkt[9]];
    }
  }

  /** The packet a server starts with. */
  lemma StartOnWire(c: Config, id: byte)
    ensures StartPacket(c, id) == [1, id, 0, 6, match c.typ case EapTls => 13 case EapTtls => 21 case EapPeap => 25, 32]
  {
    U16RoundTrip(6);
  }

  /**
   * Output left over from a refusal is sent as a first fragment without a message
   * length: the four bytes reserved for it go out as the buffer had them, and
   * push as many bytes of the output out of the packet.
   */
  lemma LeftoverPushedOut(c: Config, v: View, stack: seq<byte>)
    requires Runnable(c, v, stack) && v.firstFragment && v.send.output != []
    ensures var (step, rest) := (BuildPkt(c, v, stack), v.send.output[v.send.outpos..]);
            var n := Min(c.fragSize - 10, |rest|);
            step.status == NeedMore && |step.out| == 6 + n && step.out[6..] == (stack[6..10] + rest[..n])[..n]
  {
    var rest := v.send.output[v.send.outpos..];
    var n := Min(c.fragSize - 10, |rest|);
    var b := BuildSome(c.version, v.send, c.fragSize - 10);
    assert b.data == rest[..n] && b.msglen == 0;
    hide BuildSome, U16;
  }
}
