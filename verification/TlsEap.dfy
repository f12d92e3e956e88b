/**
 * EAP-TLS, EAP-TTLS and EAP-PEAP: TLS messages cut into EAP packets (section
 * 2.1.5 of RFC 5216). One endpoint builds fragments out of the TLS stack's
 * output, the other acknowledges each and feeds it to its own stack.
 */
module TlsEap {
  import opened Bytes
  import opened TlsRecords
  import opened TlsStack

  const EAP_HEADER: nat := 6
  const LENGTH_FIELD: nat := 4
  const TLS_MAX_MESSAGE_LEN: nat := 4 * (16384 + 2048)

  const EAP_REQUEST: byte := 1
  const EAP_RESPONSE: byte := 2

  const FLAG_LENGTH: nat := 128
  const FLAG_MORE: nat := 64
  const FLAG_START: nat := 32
  const VERSION_VALUES: nat := 8

  /** The three methods all announce version 0. */
  const SUPPORTED_VERSION: byte := 0

  datatype EapType = EapTls | EapTtls | EapPeap

  function TypeCode(t: EapType): byte {
    match t
    case EapTls => 13
    case EapTtls => 21
    case EapPeap => 25
  }

  datatype Config = Config(typ: EapType, isServer: bool, includeLength: bool, fragSize: nat, maxMsgCount: int,
                           version: nat, protection: seq<Fragment> -> Status, complete: seq<Fragment> -> bool)

  /** Everything an endpoint carries from one packet to the next. */
  datatype View = View(identifier: byte, firstFragment: bool, processed: nat, send: Sending,
                       delivered: seq<Record>, held: seq<byte>)

  /** Between fragments of one message there is always output left. */
  ghost predicate ViewValid(v: View) {
    SendingValid(v.send) && (v.send.output == [] ==> v.firstFragment)
  }

  datatype Step = Step(view: View, status: Status, out: seq<byte>)

  lemma BuildSomeBounds(version: nat, s: Sending, n: nat)
    requires SendingValid(s)
    ensures var b := BuildSome(version, s, n);
            && |b.data| <= n
            && (b.msglen > 0 ==> s.output == [])
            && SendingValid(b.next)
            && (b.status == NeedMore ==> b.next.output != [])
            && (s.output != [] ==> b.status == NeedMore || b.status == AlreadyDone)
  {
    CollectKeepsRefusals(version, [], s.pending);
    CollectStops(version, [], s.pending);
  }

  lemma {:induction false} CollectStops(version: nat, out: seq<byte>, pending: seq<Outgoing>)
    requires forall o <- pending :: o.Refuse? ==> o.status != NeedMore && o.status != InvalidState
    ensures Collect(version, out, pending).stop != NeedMore
    decreases |pending|
  {
    if pending != [] && pending[0].Emit? {
      CollectStops(version, out + Encode(Record(pending[0].typ, version, pending[0].data)), pending[1..]);
    }
  }

  function Packet(code: byte, identifier: byte, typ: byte, flags: byte, body: seq<byte>): seq<byte> {
    [code, identifier] + U16(EAP_HEADER + |body|) + [typ, flags] + body
  }

  function Code(c: Config): byte {
    if c.isServer then EAP_REQUEST else EAP_RESPONSE
  }

  /** Only the server moves the identifier on. */
  function NextIdentifier(c: Config, v: View): byte {
    if c.isServer then (v.identifier + 1) as int % 256 else v.identifier
  }

  /**
   * What follows the packet header. The buffer reserves room for the length field
   * in a first fragment; it is filled, closed up, or (when the stack reports no
   * message length) left as it is in front of the data.
   */
  function Body(stack: seq<byte>, first: bool, announce: bool, msglen: nat, data: seq<byte>): seq<byte>
    requires |stack| >= EAP_HEADER + LENGTH_FIELD
  {
    if msglen > 0 then (if announce then U32(msglen) else []) + data
    else if first then (stack[EAP_HEADER..EAP_HEADER + LENGTH_FIELD] + data)[..|data|]
    else data
  }

  /**
   * The packet built for an endpoint: header, the total length when announced,
   * and the next bytes of output. `stack` is the indeterminate initial content
   * of the packet buffer.
   */
  function BuildPkt(c: Config, v: View, stack: seq<byte>): Step
    requires EAP_HEADER + LENGTH_FIELD <= c.fragSize == |stack|
    requires ViewValid(v)
  {
    var reserved := EAP_HEADER + if v.firstFragment then LENGTH_FIELD else 0;
    var b := BuildSome(c.version, v.send, c.fragSize - reserved);
    var now := v.(identifier := NextIdentifier(c, v), send := b.next);
    if b.status != NeedMore && b.status != AlreadyDone then Step(now, b.status, []) else
    var more := b.status == NeedMore;
    var announce := v.firstFragment && (more || c.includeLength);
    var flags := (if announce then FLAG_LENGTH else 0) + (if more then FLAG_MORE else 0);
    var body := Body(stack, v.firstFragment, announce, b.msglen, b.data);
    Step(now.(firstFragment := !more), NeedMore,
         Packet(Code(c), now.identifier, TypeCode(c.typ), SUPPORTED_VERSION + flags, body))
  }

  function CreateAck(c: Config, v: View): Step {
    var id := NextIdentifier(c, v);
    Step(v.(identifier := id), NeedMore, Packet(Code(c), id, TypeCode(c.typ), SUPPORTED_VERSION, []))
  }

  /** The packet a server opens the exchange with. */
  function StartPacket(c: Config, identifier: byte): seq<byte> {
    Packet(EAP_REQUEST, identifier, TypeCode(c.typ), SUPPORTED_VERSION + FLAG_START, [])
  }

  predicate WellFormedPacket(pkt: seq<byte>) {
    |pkt| >= EAP_HEADER && FromU16(pkt[2..4]) == |pkt|
  }

  function Payload(typ: EapType, pkt: seq<byte>): (payload: (bool, seq<byte>))
    requires |pkt| >= EAP_HEADER
  {
    if typ != EapTls && pkt[5] % VERSION_VALUES != SUPPORTED_VERSION then (false, [])
    else if !HasFlag(pkt[5], FLAG_LENGTH) then (true, pkt[EAP_HEADER..])
    else if |pkt| < EAP_HEADER + LENGTH_FIELD then (false, [])
    else
      var announced := FromU32(pkt[EAP_HEADER..EAP_HEADER + LENGTH_FIELD]);
      var body := pkt[EAP_HEADER + LENGTH_FIELD..];
      if announced < |body| || announced > TLS_MAX_MESSAGE_LEN then (false, []) else (true, body)
  }

  function ProcessPkt(c: Config, v: View, pkt: seq<byte>): Step
    requires |pkt| >= EAP_HEADER
  {
    var (ok, payload) := Payload(c.typ, pkt);
    if !ok then Step(v, Failed, []) else
    var fed := Feed(v.held, payload);
    var taken := HandUp(c.protection, v.delivered, fed.records);
    Step(v.(delivered := taken.records, held := if taken.status == NeedMore then fed.rest else []), taken.status, [])
  }

  function Respond(c: Config, v: View, stack: seq<byte>): Step
    requires EAP_HEADER + LENGTH_FIELD <= c.fragSize == |stack|
    requires ViewValid(v)
  {
    var b := BuildPkt(c, v, stack);
    if b.status == InvalidState || (b.status == Failed && !c.isServer) then CreateAck(c, b.view) else b
  }

  function NextFragment(c: Config, v: View, stack: seq<byte>): Step
    requires EAP_HEADER + LENGTH_FIELD <= c.fragSize == |stack|
    requires ViewValid(v)
  {
    var b := BuildPkt(c, v, stack);
    if b.status == InvalidState && c.complete(Fragments(v.delivered)) then b.(status := Success) else b
  }

  function Data(c: Config, v: View, stack: seq<byte>, pkt: seq<byte>): Step
    requires EAP_HEADER + LENGTH_FIELD <= c.fragSize == |stack| && |pkt| >= EAP_HEADER
    requires ViewValid(v)
  {
    var p := ProcessPkt(c, v, pkt);
    match p.status
    case NeedMore => Respond(c, p.view, stack)
    case Success => p.(status := if c.complete(Fragments(p.view.delivered)) then Success else Failed)
    case _ => p
  }

  /** One received packet, from the message count to the answer. */
  function Receive(c: Config, v: View, stack: seq<byte>, pkt: seq<byte>): Step
    requires EAP_HEADER + LENGTH_FIELD <= c.fragSize == |stack|
    requires ViewValid(v)
  {
    var counted := if c.maxMsgCount != 0 then v.(processed := v.processed + 1) else v;
    if c.maxMsgCount != 0 && counted.processed > c.maxMsgCount then Step(counted, Failed, []) else
    if !WellFormedPacket(pkt) then Step(counted, Failed, []) else
    var w := if c.isServer then counted else counted.(identifier := pkt[1]);
    if HasFlag(pkt[5], FLAG_START) then Respond(c, w, stack) else
    if |pkt| == EAP_HEADER then NextFragment(c, w, stack) else Data(c, w, stack, pkt)
  }

  class Endpoint {
    const config: Config
    const tls: Tls
    var identifier: byte
    var firstFragment: bool
    var processed: nat

    ghost predicate Valid()
      reads this, tls, tls.head, tls.input
    {
      && tls.Valid()
      && EAP_HEADER + LENGTH_FIELD <= config.fragSize <= 65535
      && tls.version == config.version && tls.protection == config.protection && tls.complete == config.complete
      && (tls.output == [] ==> firstFragment)
    }

    ghost function Now(): View
      requires Valid()
      reads this, tls, tls.head, tls.input
    {
      View(identifier, firstFragment, processed, tls.Send(), tls.delivered, tls.Held())
    }

    constructor (config: Config, tls: Tls, identifier: byte)
      requires tls.Valid() && EAP_HEADER + LENGTH_FIELD <= config.fragSize <= 65535
      requires tls.version == config.version && tls.protection == config.protection && tls.complete == config.complete
      ensures Valid() && this.config == config && this.tls == tls
      ensures Now() == View(identifier, true, 0, tls.Send(), tls.delivered, tls.Held())
    {
      this.config, this.tls, this.identifier := config, tls, identifier;
      firstFragment, processed := true, 0;
    }

    method Initiate() returns (status: Status, out: seq<byte>)
      ensures status == if config.isServer then NeedMore else Failed
      ensures out == if config.isServer then StartPacket(config, identifier) else []
    {
      if config.isServer {
        var flags: byte := SUPPORTED_VERSION + FLAG_START;
        return NeedMore, [EAP_REQUEST, identifier] + U16(EAP_HEADER) + [TypeCode(config.typ), flags];
      }
      return Failed, [];
    }

    method BuildPacket(stack: seq<byte>) returns (status: Status, out: seq<byte>)
      requires Valid() && |stack| == config.fragSize
      modifies this`identifier, this`firstFragment, tls`output, tls`outpos, tls`pending
      ensures Valid()
      ensures Step(Now(), status, out) == BuildPkt(config, old(Now()), stack)
    {
      hide BuildSome, Packet, Body, SendingValid;
      if config.isServer {
        identifier := (identifier + 1) as int % 256;
      }
      var first := firstFragment;
      var room := config.fragSize - EAP_HEADER - if first then LENGTH_FIELD else 0;
      BuildSomeBounds(config.version, tls.Send(), room);
      var data, reclen;
      status, data, reclen := tls.Build(room);
      if status != NeedMore && status != AlreadyDone {
        return status, [];
      }
      var more, announce := Mark(status);
      out := Assemble(stack, first, announce, more, reclen, data);
      status := NeedMore;
    }

    /** Decides the flags of a fragment and whether the next one starts a new message. */
    method Mark(status: Status) returns (more: bool, announce: bool)
      requires status == NeedMore || status == AlreadyDone
      modifies this`firstFragment
      ensures more == (status == NeedMore) && firstFragment == !more
      ensures announce == (old(firstFragment) && (more || config.includeLength))
    {
      more, announce := status == NeedMore, false;
      if more {
        if firstFragment {
          announce := true;
          firstFragment := false;
        }
      } else if firstFragment {
        announce := config.includeLength;
      } else {
        firstFragment := true;
      }
    }

    /** Lays the packet out inside a fixed buffer, patching header and length once the outcome is known. */
    method Assemble(stack: seq<byte>, first: bool, announce: bool, more: bool, reclen: nat, data: seq<byte>)
      returns (out: seq<byte>)
      requires |stack| == config.fragSize >= EAP_HEADER + LENGTH_FIELD
      requires announce ==> first
      requires reclen > 0 ==> first
      requires EAP_HEADER + (if first then LENGTH_FIELD else 0) + |data| <= config.fragSize
      ensures out == Packet(Code(config), identifier, TypeCode(config.typ),
                            SUPPORTED_VERSION + (if announce then FLAG_LENGTH else 0) + (if more then FLAG_MORE else 0),
                            Body(stack, first, announce, reclen, data))
    {
      hide Packet, Body;
      var buf := new byte[config.fragSize](i requires 0 <= i < |stack| => stack[i]);
      assert buf[..] == stack;
      var offset := EAP_HEADER + if first then LENGTH_FIELD else 0;
      CopyInto(buf, offset, data);
      var len := PlaceLength(buf, stack, first, announce, reclen, data);
      var flags: byte := SUPPORTED_VERSION + (if announce then FLAG_LENGTH else 0) + (if more then FLAG_MORE else 0);
      out := Seal(buf, len, flags);
    }

    /** Fills in the reserved length field or closes the gap it leaves. */
    method PlaceLength(buf: array<byte>, ghost stack: seq<byte>, first: bool, announce: bool, reclen: nat, data: seq<byte>)
      returns (len: nat)
      requires |stack| == buf.Length >= EAP_HEADER + LENGTH_FIELD
      requires announce ==> first
      requires reclen > 0 ==> first
      requires var offset := EAP_HEADER + if first then LENGTH_FIELD else 0;
               offset + |data| <= buf.Length && buf[..] == stack[..offset] + data + stack[offset + |data|..]
      modifies buf
      ensures EAP_HEADER + len <= buf.Length
      ensures buf[EAP_HEADER..EAP_HEADER + len] == Body(stack, first, announce, reclen, data)
    {
      hide U32, U16;
      len := |data|;
      var offset := EAP_HEADER + if first then LENGTH_FIELD else 0;
      assert buf[offset..offset + |data|] == data;
      if reclen > 0 {
        if announce {
          CopyInto(buf, EAP_HEADER, U32(reclen));
          len := len + LENGTH_FIELD;
          assert buf[offset..offset + |data|] == data;
          assert buf[EAP_HEADER..EAP_HEADER + len] == buf[EAP_HEADER..offset] + buf[offset..offset + |data|];
        } else {
          var moved := buf[offset..offset + len];
          assert moved == data;
          CopyInto(buf, EAP_HEADER, moved);
        }
      } else {
        assert buf[EAP_HEADER..offset + |data|] == stack[EAP_HEADER..offset] + data;
        assert buf[EAP_HEADER..EAP_HEADER + |data|] == buf[EAP_HEADER..offset + |data|][..|data|];
      }
    }

    /** Writes the header in front of a finished body. */
    method Seal(buf: array<byte>, len: nat, flags: byte) returns (out: seq<byte>)
      requires EAP_HEADER + len <= buf.Length
      modifies buf
      ensures out == Packet(Code(config), identifier, TypeCode(config.typ), flags, old(buf[EAP_HEADER..EAP_HEADER + len]))
    {
      ghost var body := buf[EAP_HEADER..EAP_HEADER + len];
      CopyInto(buf, 0, [Code(config), identifier] + U16(EAP_HEADER + len) + [TypeCode(config.typ), flags]);
      assert buf[EAP_HEADER..EAP_HEADER + len] == body;
      out := buf[..EAP_HEADER + len];
      assert out == buf[0..EAP_HEADER] + buf[EAP_HEADER..EAP_HEADER + len];
    }

    method Acknowledge() returns (out: seq<byte>)
      requires Valid()
      modifies this`identifier
      ensures Valid()
      ensures Step(Now(), NeedMore, out) == CreateAck(config, old(Now()))
    {
      if config.isServer {
        identifier := (identifier + 1) as int % 256;
      }
      out := Packet(Code(config), identifier, TypeCode(config.typ), SUPPORTED_VERSION, []);
    }

    method ProcessPacket(pkt: seq<byte>) returns (status: Status)
      requires Valid() && |pkt| >= EAP_HEADER
      modifies tls`delivered, tls`input, tls`inpos, tls`headpos, tls.head, tls.input
      ensures Valid() && (tls.input == old(tls.input) || fresh(tls.input))
      ensures Step(Now(), status, []) == ProcessPkt(config, old(Now()), pkt)
    {
      if config.typ != EapTls && pkt[5] % VERSION_VALUES != SUPPORTED_VERSION {
        return Failed;
      }
      var offset := EAP_HEADER;
      if HasFlag(pkt[5], FLAG_LENGTH) {
        if |pkt| < EAP_HEADER + LENGTH_FIELD {
          return Failed;
        }
        var announced := FromU32(pkt[EAP_HEADER..EAP_HEADER + LENGTH_FIELD]);
        if announced < |pkt| - EAP_HEADER - LENGTH_FIELD || announced > TLS_MAX_MESSAGE_LEN {
          return Failed;
        }
        offset := offset + LENGTH_FIELD;
      }
      status := tls.Process(pkt[offset..]);
    }

    method Answer(stack: seq<byte>) returns (status: Status, out: seq<byte>)
      requires Valid() && |stack| == config.fragSize
      modifies this`identifier, this`firstFragment, tls`output, tls`outpos, tls`pending
      ensures Valid()
      ensures Step(Now(), status, out) == Respond(config, old(Now()), stack)
    {
      status, out := BuildPacket(stack);
      if status == InvalidState || (status == Failed && !config.isServer) {
        out := Acknowledge();
        status := NeedMore;
      }
    }

    /** An acknowledgement asks for the next fragment. */
    method Continue(stack: seq<byte>) returns (status: Status, out: seq<byte>)
      requires Valid() && |stack| == config.fragSize
      modifies this`identifier, this`firstFragment, tls`output, tls`outpos, tls`pending
      ensures Valid()
      ensures Step(Now(), status, out) == NextFragment(config, old(Now()), stack)
    {
      status, out := BuildPacket(stack);
      if status == InvalidState && tls.complete(Fragments(tls.delivered)) {
        status := Success;
      }
    }

    /** A packet with payload is processed before anything is answered. */
    method Consume(stack: seq<byte>, pkt: seq<byte>) returns (status: Status, out: seq<byte>)
      requires Valid() && |stack| == config.fragSize && |pkt| >= EAP_HEADER
      modifies this`identifier, this`firstFragment, tls, tls.head, tls.input
      ensures Valid() && (tls.input == old(tls.input) || fresh(tls.input))
      ensures Step(Now(), status, out) == Data(config, old(Now()), stack, pkt)
    {
      hide Respond, ProcessPkt;
      out := [];
      status := ProcessPacket(pkt);
      match status {
        case NeedMore =>
          status, out := Answer(stack);
        case Success =>
          status := if tls.complete(Fragments(tls.delivered)) then Success else Failed;
        case _ =>
      }
    }

    method Process(stack: seq<byte>, pkt: seq<byte>) returns (status: Status, out: seq<byte>)
      requires Valid() && |stack| == config.fragSize
      modifies this`identifier, this`firstFragment, this`processed, tls, tls.head, tls.input
      ensures Valid() && (tls.input == old(tls.input) || fresh(tls.input))
      ensures Step(Now(), status, out) == Receive(config, old(Now()), stack, pkt)
    {
      hide Respond, NextFragment, Data, HasFlag, FromU16;
      if config.maxMsgCount != 0 {
        processed := processed + 1;
        if processed > config.maxMsgCount {
          return Failed, [];
        }
      }
      if |pkt| < EAP_HEADER || FromU16(pkt[2..4]) != |pkt| {
        return Failed, [];
      }
      if !config.isServer {
        identifier := pkt[1];
      }
      if HasFlag(pkt[5], FLAG_START) {
        status, out := Answer(stack);
      } else if |pkt| == EAP_HEADER {
        status, out := Continue(stack);
      } else {
        status, out := Consume(stack, pkt);
      }
    }
  }
}
