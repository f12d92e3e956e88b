/**
 * A whole EAP-TLS message exchange: the sender's fragments reach the receiver,
 * each acknowledgement fetches the next fragment, until the sender has no more.
 */
module TlsEapTransfer {
  import opened Bytes
  import opened TlsRecords
  import opened TlsStack
  import opened TlsEap

  datatype Outcome = Outcome(sender: View, receiver: View, packets: seq<seq<byte>>, status: Status)

  /** Bytes the sender's stack still has to hand out of the message in progress. */
  function Unsent(v: View): seq<byte> {
    if v.send.outpos <= |v.send.output| then v.send.output[v.send.outpos..] else []
  }

  ghost predicate Runnable(c: Config, v: View, stack: seq<byte>) {
    EAP_HEADER + LENGTH_FIELD <= c.fragSize == |stack| && ViewValid(v)
  }

  lemma ReceiveRunnable(c: Config, v: View, stack: seq<byte>, pkt: seq<byte>)
    requires Runnable(c, v, stack)
    ensures Runnable(c, Receive(c, v, stack, pkt).view, stack)
  {
    hide BuildSome, HandUp, Feed, Payload, HasFlag, Packet, Body;
    forall w: View | ViewValid(w)
      ensures ViewValid(BuildPkt(c, w, stack).view)
    {
      BuildSomeBounds(c.version, w.send, c.fragSize - EAP_HEADER - LENGTH_FIELD);
      BuildSomeBounds(c.version, w.send, c.fragSize - EAP_HEADER);
      BuildEmptyOutput(c.version, w.send, c.fragSize - EAP_HEADER);
    }
  }

  lemma BuildEmptyOutput(version: nat, s: Sending, n: nat)
    requires SendingValid(s)
    ensures var b := BuildSome(version, s, n);
            b.status != NeedMore && b.status != AlreadyDone ==> s.output == []
  {
  }

  /** Delivers `pkt`, returns the acknowledgement, and goes on with the fragment it fetches. */
  ghost function Pump(cs: Config, s: View, cr: Config, r: View, stack: (seq<byte>, seq<byte>), pkt: seq<byte>): Outcome
    requires Runnable(cs, s, stack.0) && Runnable(cr, r, stack.1)
    decreases |Unsent(s)|
  {
    var atReceiver := Receive(cr, r, stack.1, pkt);
    if atReceiver.status != NeedMore then Outcome(s, atReceiver.view, [pkt], atReceiver.status) else
    var atSender := Receive(cs, s, stack.0, atReceiver.out);
    ReceiveRunnable(cr, r, stack.1, pkt);
    ReceiveRunnable(cs, s, stack.0, atReceiver.out);
    if atSender.status != NeedMore || |Unsent(atSender.view)| >= |Unsent(s)| then
      Outcome(atSender.view, atReceiver.view, [pkt], atSender.status)
    else
      var rest := Pump(cs, atSender.view, cr, atReceiver.view, stack, atSender.out);
      rest.(packets := [pkt] + rest.packets)
  }

  /** How many packets n bytes of output take, in the middle of a message. */
  function MiddlePackets(n: nat, fragSize: nat): nat
    requires fragSize >= EAP_HEADER + LENGTH_FIELD
  {
    var room := fragSize - EAP_HEADER;
    if n <= room then 1 else 1 + MiddlePackets(n - room, fragSize)
  }

  /** How many packets a whole message takes: the first reserves the length field. */
  function PacketsNeeded(n: nat, fragSize: nat): nat
    requires fragSize >= EAP_HEADER + LENGTH_FIELD
  {
    var room := fragSize - EAP_HEADER - LENGTH_FIELD;
    if n <= room then 1 else 1 + MiddlePackets(n - room, fragSize)
  }

  /** An endpoint may process k more packets before its message limit. */
  predicate MayProcess(c: Config, v: View, k: nat) {
    c.maxMsgCount == 0 || v.processed + k <= c.maxMsgCount
  }

  predicate Insatiable(c: Config, fs: seq<Fragment>) {
    c.protection(fs) == NeedMore
  }

  /** A receiver with nothing of its own to say and upper layers that take every record. */
  ghost predicate Listening(c: Config, v: View) {
    && v.send == Sending([], 0, [])
    && v.firstFragment
    && (forall fs :: Insatiable(c, fs))
  }

  ghost predicate IsAck(pkt: seq<byte>, typ: EapType) {
    |pkt| == EAP_HEADER && WellFormedPacket(pkt) && pkt[4] == TypeCode(typ) && pkt[5] == 0
  }

  lemma PacketLayout(code: byte, id: byte, typ: byte, flags: byte, body: seq<byte>)
    requires EAP_HEADER + |body| <= 65535
    ensures var p := Packet(code, id, typ, flags, body);
            && |p| == EAP_HEADER + |body| && WellFormedPacket(p)
            && p[1] == id && p[4] == typ && p[5] == flags && p[EAP_HEADER..] == body
  {
    U16RoundTrip(EAP_HEADER + |body|);
    var p := Packet(code, id, typ, flags, body);
    assert p[2..4] == U16(EAP_HEADER + |body|);
  }

  /** What a fragment makes a listening endpoint do. */
  lemma ReceiveFragment(c: Config, v: View, stack: seq<byte>, pkt: seq<byte>, payload: seq<byte>)
    requires Runnable(c, v, stack) && Listening(c, v) && MayProcess(c, v, 1)
    requires WellFormedPacket(pkt) && |pkt| > EAP_HEADER && !HasFlag(pkt[5], FLAG_START)
    requires Payload(c.typ, pkt) == (true, payload)
    ensures var step := Receive(c, v, stack, pkt);
            && step.status == NeedMore && IsAck(step.out, c.typ)
            && step.view.delivered == v.delivered + Feed(v.held, payload).records
            && step.view.held == Feed(v.held, payload).rest
            && Listening(c, step.view)
            && step.view.processed == v.processed + if c.maxMsgCount == 0 then 0 else 1
  {
    hide Feed, Payload, HasFlag, Packet, FromU16, HandUp;
    forall done, rs
      ensures HandUp(c.protection, done, rs) == Taken(done + rs, NeedMore)
    {
      assert forall fs :: Insatiable(c, fs) ==> c.protection(fs) == NeedMore;
      HandUpAll(c.protection, done, rs);
    }
    forall id: byte
      ensures IsAck(Packet(Code(c), id, TypeCode(c.typ), SUPPORTED_VERSION, []), c.typ)
    {
      PacketLayout(Code(c), id, TypeCode(c.typ), SUPPORTED_VERSION, []);
    }
  }

  /** The endpoint after counting a packet and, as a peer, adopting its identifier. */
  function Counted(c: Config, v: View, pkt: seq<byte>): View
    requires |pkt| >= EAP_HEADER
  {
    v.(processed := v.processed + (if c.maxMsgCount == 0 then 0 else 1),
       identifier := if c.isServer then v.identifier else pkt[1])
  }

  /** A server's start packet makes the peer open its flight, under the server's identifier. */
  lemma ReceiveStart(server: Config, identifier: byte, c: Config, v: View, stack: seq<byte>)
    requires Runnable(c, v, stack) && MayProcess(c, v, 1) && !c.isServer && server.typ == c.typ
    ensures var pkt := StartPacket(server, identifier);
            && WellFormedPacket(pkt) && !IsAck(pkt, c.typ) && Counted(c, v, pkt).identifier == identifier
            && Receive(c, v, stack, pkt) == Respond(c, Counted(c, v, pkt), stack)
  {
    hide NextFragment, Data, Respond, Packet;
    PacketLayout(EAP_REQUEST, identifier, TypeCode(server.typ), SUPPORTED_VERSION + FLAG_START, []);
  }

  /** What an acknowledgement makes the sender do. */
  lemma ReceiveAck(c: Config, v: View, stack: seq<byte>, pkt: seq<byte>)
    requires Runnable(c, v, stack) && MayProcess(c, v, 1) && IsAck(pkt, c.typ)
    ensures Receive(c, v, stack, pkt) == NextFragment(c, Counted(c, v, pkt), stack)
  {
    hide NextFragment, Data, Respond;
  }

  /** The sender between fragments: the next packet carries the next bytes, no length, and never looks like an ack. */
  lemma MiddleFragment(c: Config, v: View, stack: seq<byte>)
    requires Runnable(c, v, stack) && c.fragSize <= 65535
    requires v.send.output != [] && !v.firstFragment
    ensures var step := NextFragment(c, v, stack);
            var n := Min(c.fragSize - EAP_HEADER, |Unsent(v)|);
            && n > 0 && step.status == NeedMore
            && step.view == v.(identifier := step.view.identifier, firstFragment := n == |Unsent(v)|, send := step.view.send)
            && step.view.send.pending == v.send.pending
            && Unsent(step.view) == Unsent(v)[n..]
            && (n == |Unsent(v)| ==> step.view.send.output == []) && (n < |Unsent(v)| ==> step.view.send.output != [])
            && EAP_HEADER < |step.out| == EAP_HEADER + n <= c.fragSize
            && WellFormedPacket(step.out) && !HasFlag(step.out[5], FLAG_START)
            && Payload(c.typ, step.out) == (true, Unsent(v)[..n])
  {
    hide Packet, HasFlag, FromU16, Payload;
    var n := Min(c.fragSize - EAP_HEADER, |Unsent(v)|);
    var data := Unsent(v)[..n];
    var flags: byte := if n < |Unsent(v)| then FLAG_MORE else 0;
    assert v.send.output[v.send.outpos..v.send.outpos + n] == data;
    PlainPayload(c, Code(c), NextIdentifier(c, v), TypeCode(c.typ), flags, data);
  }

  /** A packet without announced length carries its whole body as payload. */
  lemma PlainPayload(c: Config, code: byte, id: byte, typ: byte, flags: byte, data: seq<byte>)
    requires EAP_HEADER + |data| <= 65535 && (flags == 0 || flags == FLAG_MORE)
    ensures var pkt := Packet(code, id, typ, flags, data);
            && WellFormedPacket(pkt) && !HasFlag(pkt[5], FLAG_START)
            && |pkt| == EAP_HEADER + |data|
            && Payload(c.typ, pkt) == (true, data)
  {
    hide Packet, FromU16;
    PacketLayout(code, id, typ, flags, data);
  }

  /** The first packet of a message: its announced length, and n bytes of data. */
  function Opening(total: seq<byte>, n: nat, announce: bool): seq<byte>
    requires n <= |total|
  {
    (if announce then U32(|total|) else []) + total[..n]
  }

  function OpeningFlags(total: seq<byte>, n: nat, announce: bool): byte {
    (if announce then FLAG_LENGTH else 0) + (if n < |total| then FLAG_MORE else 0)
  }

  /** The length announced, in 32 bits, is one a receiver takes with the first n bytes. */
  predicate Announceable(total: nat, n: nat) {
    n <= total % U32_LIMIT <= TLS_MAX_MESSAGE_LEN
  }

  /** A receiver takes the opening packet exactly if it takes the length announced. */
  lemma OpeningPayload(c: Config, code: byte, id: byte, typ: byte, total: seq<byte>, n: nat, announce: bool)
    requires n <= |total| && EAP_HEADER + LENGTH_FIELD + n <= 65535 && (announce || n == |total|)
    ensures var pkt := Packet(code, id, typ, OpeningFlags(total, n, announce), Opening(total, n, announce));
            && WellFormedPacket(pkt) && !HasFlag(pkt[5], FLAG_START)
            && |pkt| == EAP_HEADER + n + (if announce then LENGTH_FIELD else 0)
            && Payload(c.typ, pkt) == if Announceable(|total|, n) then (true, total[..n]) else (false, [])
  {
    hide U32, FromU32, Packet;
    var body := Opening(total, n, announce);
    U32RoundTrip(|total|);
    PacketLayout(code, id, typ, OpeningFlags(total, n, announce), body);
    var pkt := Packet(code, id, typ, OpeningFlags(total, n, announce), body);
    if announce {
      assert pkt[EAP_HEADER..EAP_HEADER + LENGTH_FIELD] == body[..LENGTH_FIELD] == U32(|total|);
      assert pkt[EAP_HEADER + LENGTH_FIELD..] == body[LENGTH_FIELD..] == total[..n];
    } else {
      assert body == total[..n];
    }
  }

  /** The sender's first packet of a message of `total` bytes. */
  lemma FirstFragment(c: Config, v: View, stack: seq<byte>, total: seq<byte>)
    requires Runnable(c, v, stack)
    requires v.send.output == [] && v.firstFragment
    requires Collect(c.version, [], v.send.pending) == Collected(total, [], InvalidState) && total != []
    ensures var step := BuildPkt(c, v, stack);
            var n := Min(c.fragSize - EAP_HEADER - LENGTH_FIELD, |total|);
            var announce := n < |total| || c.includeLength;
            && step.status == NeedMore
            && step.view == v.(identifier := step.view.identifier, firstFragment := n == |total|, send := step.view.send)
            && step.view.send.pending == []
            && Unsent(step.view) == total[n..]
            && (n == |total| ==> step.view.send.output == []) && (n < |total| ==> step.view.send.output != [])
            && step.out == Packet(Code(c), step.view.identifier, TypeCode(c.typ),
                                  OpeningFlags(total, n, announce), Opening(total, n, announce))
  {
    hide Packet, U32;
  }

  lemma ReceiveRejected(c: Config, v: View, stack: seq<byte>, pkt: seq<byte>)
    requires Runnable(c, v, stack)
    requires WellFormedPacket(pkt) && |pkt| > EAP_HEADER && !HasFlag(pkt[5], FLAG_START)
    requires Payload(c.typ, pkt) == (false, [])
    ensures var step := Receive(c, v, stack, pkt);
            step.status == Failed && step.view.delivered == v.delivered && step.view.held == v.held
  {
    hide Payload, HasFlag, FromU16;
  }

  /**
   * The loop invariant of a transfer: the bytes in flight and the bytes unsent
   * complete exactly the records still missing at the receiver.
   */
  ghost predicate InFlight(s: View, r: View, payload: seq<byte>, all: seq<Record>) {
    && Holdable(r.held)
    && var q := Parse(r.held + (payload + Unsent(s))); q.rest == [] && r.delivered + q.records == all
  }

  /** Feeding the payload in flight keeps the invariant, with the receiver one payload further. */
  lemma InFlightStep(r: View, payload: seq<byte>, rest: seq<byte>, all: seq<Record>)
    requires Holdable(r.held)
    requires var q := Parse(r.held + (payload + rest)); q.rest == [] && r.delivered + q.records == all
    ensures var fed := Feed(r.held, payload);
            && Holdable(fed.rest)
            && var q := Parse(fed.rest + rest); q.rest == [] && (r.delivered + fed.records) + q.records == all
  {
    hide Parse, Feed;
    var fed := Feed(r.held, payload);
    FeedThenParse(r.held, payload);
    assert r.held + (payload + rest) == (r.held + payload) + rest;
    ParseResumes(r.held + payload, rest);
    ParseResumes(fed.rest, rest);
    var m := Parse(fed.rest);
    var q := Parse(m.rest + rest);
    ConcatAssociates(fed.records, m.records, q.records);
    ConcatAssociates(r.delivered, fed.records, m.records + q.records);
  }

  /** How a message ends at the receiver: with fewer than five bytes of an empty record still to come, it lags. */
  ghost predicate Ends(held: seq<byte>, delivered: seq<Record>, all: seq<Record>, last: nat)
    requires all != []
  {
    var final := all[|all| - 1];
    if final.data == [] && last < HEADER then delivered == all[..|all| - 1] && held == Encode(final)
    else delivered == all && held == []
  }

  /** The last payload of a message ends it. */
  lemma InFlightEnd(held: seq<byte>, delivered: seq<Record>, payload: seq<byte>, all: seq<Record>)
    requires Holdable(held) && payload != [] && all != []
    requires var q := Parse(held + payload); q.rest == [] && delivered + q.records == all
    ensures var fed := Feed(held, payload); Ends(fed.rest, delivered + fed.records, all, |payload|)
  {
    hide Parse, Feed;
    var fed, q := Feed(held, payload), Parse(held + payload);
    assert [held] == [held] + [] && Flatten([held]) == held + Flatten([]) == held;
    LastPieceLags([held], held, payload);
    FeedThenParse(held, payload);
    ParseSound(held + payload);
    assert q.records != [];
    assert all[|all| - 1] == q.records[|q.records| - 1];
    if StartsWithRecord(fed.rest) {
      ParseLoneEmpty(fed.rest);
      EncodeFirstRecord(fed.rest);
      assert fed.rest[..HEADER] == fed.rest;
      assert q.records == fed.records + [FirstRecord(fed.rest)];
      assert all == (delivered + fed.records) + [FirstRecord(fed.rest)];
    } else {
      ParseIncomplete(fed.rest);
      assert fed.records + [] == fed.records;
    }
  }

  ghost predicate Compatible(cs: Config, s: View, cr: Config, r: View, stack: (seq<byte>, seq<byte>)) {
    && Runnable(cs, s, stack.0) && Runnable(cr, r, stack.1)
    && cs.fragSize <= 65535 && cr.typ == cs.typ && Listening(cr, r)
  }

  /** One round of an exchange that is not over yet. */
  lemma PumpRound(cs: Config, s: View, cr: Config, r: View, stack: (seq<byte>, seq<byte>), pkt: seq<byte>)
    requires Runnable(cs, s, stack.0) && Runnable(cr, r, stack.1)
    requires Receive(cr, r, stack.1, pkt).status == NeedMore
    ensures var a := Receive(cr, r, stack.1, pkt);
            var b := Receive(cs, s, stack.0, a.out);
            && Runnable(cr, a.view, stack.1) && Runnable(cs, b.view, stack.0)
            && (b.status != NeedMore ==> Pump(cs, s, cr, r, stack, pkt) == Outcome(b.view, a.view, [pkt], b.status))
            && (b.status == NeedMore && |Unsent(b.view)| < |Unsent(s)| ==>
                  var rest := Pump(cs, b.view, cr, a.view, stack, b.out);
                  Pump(cs, s, cr, r, stack, pkt) == rest.(packets := [pkt] + rest.packets))
  {
    hide Receive, ViewValid;
    var a := Receive(cr, r, stack.1, pkt);
    ReceiveRunnable(cr, r, stack.1, pkt);
    ReceiveRunnable(cs, s, stack.0, a.out);
  }

  /** Packets the sender has still to follow up on, the one in flight included. */
  function PacketsLeft(c: Config, v: View): (k: nat)
    requires c.fragSize >= EAP_HEADER + LENGTH_FIELD
    ensures k >= 1
  {
    1 + if Unsent(v) == [] then 0 else MiddlePackets(|Unsent(v)|, c.fragSize)
  }

  lemma PacketsLeftStep(c: Config, v: View, w: View)
    requires c.fragSize >= EAP_HEADER + LENGTH_FIELD
    ensures Unsent(v) == [] ==> PacketsLeft(c, v) == 1
    ensures var n := Min(c.fragSize - EAP_HEADER, |Unsent(v)|);
            Unsent(v) != [] && Unsent(w) == Unsent(v)[n..] ==> PacketsLeft(c, v) == 1 + PacketsLeft(c, w)
  {
  }

  /** A fragment with the given payload is in flight to a receiver that can take it. */
  ghost predicate Underway(cs: Config, s: View, cr: Config, r: View, stack: (seq<byte>, seq<byte>),
                           pkt: seq<byte>, payload: seq<byte>, all: seq<Record>)
  {
    && Compatible(cs, s, cr, r, stack)
    && s.send.pending == [] && s.firstFragment == (s.send.output == [])
    && EAP_HEADER < |pkt| <= cs.fragSize && WellFormedPacket(pkt) && !HasFlag(pkt[5], FLAG_START)
    && Payload(cr.typ, pkt) == (true, payload)
    && InFlight(s, r, payload, all)
    && (payload != [] || Unsent(s) != []) && all != []
  }

  /** One round keeps an exchange under way, or completes it, while neither side is at its message limit. */
  lemma Round(cs: Config, s: View, cr: Config, r: View, stack: (seq<byte>, seq<byte>),
              pkt: seq<byte>, payload: seq<byte>, all: seq<Record>)
    requires Underway(cs, s, cr, r, stack, pkt, payload, all) && MayProcess(cs, s, 1) && MayProcess(cr, r, 1)
    ensures var a := Receive(cr, r, stack.1, pkt);
            var b := Receive(cs, s, stack.0, a.out);
            && a.status == NeedMore && b.view.delivered == s.delivered && r.delivered <= a.view.delivered
            && a.view.processed == r.processed + (if cr.maxMsgCount == 0 then 0 else 1)
            && b.view.processed == s.processed + (if cs.maxMsgCount == 0 then 0 else 1)
            && if s.send.output == [] then
                 && b.status == (if cs.complete(Fragments(s.delivered)) then Success else InvalidState)
                 && b.view.send == Sending([], 0, []) && b.view.firstFragment
                 && Ends(a.view.held, a.view.delivered, all, |payload|)
               else
                 var n := Min(cs.fragSize - EAP_HEADER, |Unsent(s)|);
                 && n > 0 && b.status == NeedMore && Unsent(b.view) == Unsent(s)[n..]
                 && Underway(cs, b.view, cr, a.view, stack, b.out, Unsent(s)[..n], all)
  {
    hide Receive, Payload, HasFlag, FromU16, NextFragment, Feed, Parse, Holdable, Ends;
    var a := Receive(cr, r, stack.1, pkt);
    ReceiveFragment(cr, r, stack.1, pkt, payload);
    InFlightStep(r, payload, Unsent(s), all);
    ReceiveAck(cs, s, stack.0, a.out);
    ReceiveRunnable(cr, r, stack.1, pkt);
    ReceiveRunnable(cs, s, stack.0, a.out);
    var w := Counted(cs, s, a.out);
    assert Unsent(w) == Unsent(s);
    if s.send.output == [] {
      NothingLeft(cs, w, stack.0);
      assert payload + [] == payload;
      InFlightEnd(r.held, r.delivered, payload, all);
    } else {
      MiddleFragment(cs, w, stack.0);
      var n := Min(cs.fragSize - EAP_HEADER, |Unsent(s)|);
      assert Unsent(s) == Unsent(s)[..n] + Unsent(s)[n..];
    }
  }

  /** A packet too many for the receiver's limit fails, and delivers nothing. */
  lemma ReceiveTooMany(c: Config, v: View, stack: seq<byte>, pkt: seq<byte>)
    requires Runnable(c, v, stack) && !MayProcess(c, v, 1)
    ensures var step := Receive(c, v, stack, pkt);
            step.status == Failed && step.view.delivered == v.delivered && step.view.held == v.held
  {
  }

  /** What has been delivered of a message under way is the front of it. */
  lemma DeliveredIsFront(s: View, r: View, payload: seq<byte>, all: seq<Record>)
    requires InFlight(s, r, payload, all)
    ensures r.delivered <= all
  {
  }

  /** No packet of an exchange is bigger than a fragment or as small as an acknowledgement. */
  ghost predicate AllFragments(packets: seq<seq<byte>>, fragSize: nat) {
    forall p <- packets :: EAP_HEADER < |p| <= fragSize
  }

  /** Size of the last payload when n bytes are left to send in the middle of a message. */
  function LastOfMiddle(n: nat, fragSize: nat): nat
    requires fragSize >= EAP_HEADER + LENGTH_FIELD
  {
    var room := fragSize - EAP_HEADER;
    if n <= room then n else LastOfMiddle(n - room, fragSize)
  }

  /** Size of the last payload of a message of n bytes. */
  function LastPayload(n: nat, fragSize: nat): nat
    requires fragSize >= EAP_HEADER + LENGTH_FIELD
  {
    var room := fragSize - EAP_HEADER - LENGTH_FIELD;
    if n <= room then n else LastOfMiddle(n - room, fragSize)
  }

  /** The whole rest of a message arrived and the sender is done. */
  ghost predicate Arrived(o: Outcome, c: Config, delivered: seq<Record>, all: seq<Record>, last: nat)
    requires all != []
  {
    && Ends(o.receiver.held, o.receiver.delivered, all, last)
    && o.sender.send == Sending([], 0, []) && o.sender.firstFragment
    && o.status == (if c.complete(Fragments(delivered)) then Success else InvalidState)
  }

  /** The exchange broke off: what was delivered is the front of the message. */
  ghost predicate BrokenOff(o: Outcome, r: View, all: seq<Record>) {
    o.status == Failed && r.delivered <= o.receiver.delivered <= all
  }

  predicate Enough(cs: Config, s: View, cr: Config, r: View, k: nat) {
    MayProcess(cs, s, k) && MayProcess(cr, r, k)
  }

  /** From any fragment in flight, the remaining exchange delivers the rest of the message, exactly if both limits suffice. */
  lemma {:induction false} PumpDelivers(cs: Config, s: View, cr: Config, r: View, stack: (seq<byte>, seq<byte>),
                                        pkt: seq<byte>, payload: seq<byte>, all: seq<Record>)
    requires Underway(cs, s, cr, r, stack, pkt, payload, all)
    ensures var o := Pump(cs, s, cr, r, stack, pkt);
            var last := if Unsent(s) == [] then |payload| else LastOfMiddle(|Unsent(s)|, cs.fragSize);
            && AllFragments(o.packets, cs.fragSize) && |o.packets| <= PacketsLeft(cs, s)
            && (Enough(cs, s, cr, r, PacketsLeft(cs, s)) ==>
                  Arrived(o, cs, s.delivered, all, last) && |o.packets| == PacketsLeft(cs, s))
            && (!Enough(cs, s, cr, r, PacketsLeft(cs, s)) ==> BrokenOff(o, r, all))
    decreases |Unsent(s)|
  {
    hide Receive, Payload, HasFlag, FromU16, InFlight, ViewValid, Listening, PacketsLeft, SendingValid, LastOfMiddle, Ends;
    assert r.delivered <= all by { DeliveredIsFront(s, r, payload, all); }
    if !MayProcess(cr, r, 1) {
      ReceiveTooMany(cr, r, stack.1, pkt);
    } else if !MayProcess(cs, s, 1) {
      StopsAtSender(cs, s, cr, r, stack, pkt, payload, all);
    } else {
      Round(cs, s, cr, r, stack, pkt, payload, all);
      PumpRound(cs, s, cr, r, stack, pkt);
      hide Pump;
      var a := Receive(cr, r, stack.1, pkt);
      var b := Receive(cs, s, stack.0, a.out);
      PacketsLeftStep(cs, s, b.view);
      if s.send.output != [] {
        var n := Min(cs.fragSize - EAP_HEADER, |Unsent(s)|);
        PumpDelivers(cs, b.view, cr, a.view, stack, b.out, Unsent(s)[..n], all);
        LastOfMiddleStep(cs, s, b.view);
      }
    }
  }

  lemma LastOfMiddleStep(c: Config, v: View, w: View)
    requires c.fragSize >= EAP_HEADER + LENGTH_FIELD
    ensures var n := Min(c.fragSize - EAP_HEADER, |Unsent(v)|);
            Unsent(v) != [] && Unsent(w) == Unsent(v)[n..] ==>
              LastOfMiddle(|Unsent(v)|, c.fragSize) == if Unsent(w) == [] then n else LastOfMiddle(|Unsent(w)|, c.fragSize)
  {
  }

  /** The receiver takes the fragment but the sender's limit keeps it from the acknowledgement. */
  lemma StopsAtSender(cs: Config, s: View, cr: Config, r: View, stack: (seq<byte>, seq<byte>),
                      pkt: seq<byte>, payload: seq<byte>, all: seq<Record>)
    requires Underway(cs, s, cr, r, stack, pkt, payload, all) && MayProcess(cr, r, 1) && !MayProcess(cs, s, 1)
    ensures BrokenOff(Pump(cs, s, cr, r, stack, pkt), r, all) && Pump(cs, s, cr, r, stack, pkt).packets == [pkt]
  {
    hide Receive, Payload, HasFlag, FromU16, Feed, Parse, Holdable, ViewValid;
    var a := Receive(cr, r, stack.1, pkt);
    ReceiveFragment(cr, r, stack.1, pkt, payload);
    InFlightStep(r, payload, Unsent(s), all);
    ReceiveTooMany(cs, s, stack.0, a.out);
    PumpRound(cs, s, cr, r, stack, pkt);
  }

  lemma NothingLeft(c: Config, v: View, stack: seq<byte>)
    requires Runnable(c, v, stack) && v.send == Sending([], 0, [])
    ensures var step := NextFragment(c, v, stack);
            && step.status == (if c.complete(Fragments(v.delivered)) then Success else InvalidState)
            && step.view == v.(identifier := step.view.identifier)
  {
  }

  /** A sender that starts a message out of the offered records. */
  ghost predicate Starting(c: Config, v: View) {
    && v.firstFragment && v.send.output == [] && v.send.outpos == 0
    && v.send.pending != []
    && (forall o <- v.send.pending :: o.Emit? && |o.data| < 65536)
    && c.version < 65536
  }

  /** The whole exchange, from the sender's first packet on. */
  ghost function Exchange(cs: Config, s: View, cr: Config, r: View, stack: (seq<byte>, seq<byte>)): Outcome
    requires Runnable(cs, s, stack.0) && Runnable(cr, r, stack.1)
  {
    var first := BuildPkt(cs, s, stack.0);
    FirstRunnable(cs, s, stack.0);
    if first.status != NeedMore then Outcome(first.view, r, [], first.status)
    else Pump(cs, first.view, cr, r, stack, first.out)
  }

  lemma FirstRunnable(c: Config, v: View, stack: seq<byte>)
    requires Runnable(c, v, stack)
    ensures Runnable(c, BuildPkt(c, v, stack).view, stack)
  {
    hide BuildSome, Packet, Body;
    BuildSomeBounds(c.version, v.send, c.fragSize - EAP_HEADER - LENGTH_FIELD);
    BuildSomeBounds(c.version, v.send, c.fragSize - EAP_HEADER);
    BuildEmptyOutput(c.version, v.send, c.fragSize - EAP_HEADER);
  }

  lemma MessageBytes(c: Config, v: View)
    requires Starting(c, v)
    ensures var rs := Offered(c.version, v.send.pending); var total := EncodeAll(rs);
            && Collect(c.version, [], v.send.pending) == Collected(total, [], InvalidState)
            && total != []
            && Parse(total) == Parsed(rs, [])
            && |rs| == |v.send.pending| && rs[|rs| - 1].data == v.send.pending[|rs| - 1].data
  {
    hide Parse, Collect;
    var rs := Offered(c.version, v.send.pending);
    CollectAll(c.version, [], v.send.pending);
    assert [] + EncodeAll(rs) == EncodeAll(rs);
    assert forall r <- rs :: Encodable(r);
    ParseEncoded(rs, []);
    ParseIncomplete([]);
    assert EncodeAll(rs) + [] == EncodeAll(rs) && rs + [] == rs;
  }

  lemma PacketsAfterFirst(c: Config, v: View, total: seq<byte>)
    requires c.fragSize >= EAP_HEADER + LENGTH_FIELD
    requires Unsent(v) == total[Min(c.fragSize - EAP_HEADER - LENGTH_FIELD, |total|)..]
    ensures PacketsLeft(c, v) == PacketsNeeded(|total|, c.fragSize)
  {
  }

  /** The first packet puts the exchange under way, unless its announced length is over the limit. */
  lemma Opens(cs: Config, s: View, cr: Config, r: View, stack: (seq<byte>, seq<byte>), records: seq<Record>, total: seq<byte>)
    requires Compatible(cs, s, cr, r, stack) && r.held == [] && Starting(cs, s)
    requires records == Offered(cs.version, s.send.pending) && total == EncodeAll(records)
    ensures var first := BuildPkt(cs, s, stack.0);
            var n := Min(cs.fragSize - EAP_HEADER - LENGTH_FIELD, |total|);
            && first.status == NeedMore && first.view.delivered == s.delivered
            && Runnable(cs, first.view, stack.0)
            && first.view.processed == s.processed && Unsent(first.view) == total[n..]
            && PacketsLeft(cs, first.view) == PacketsNeeded(|total|, cs.fragSize)
            && EAP_HEADER < |first.out| <= cs.fragSize
            && if Announceable(|total|, n) then
                 Underway(cs, first.view, cr, r, stack, first.out, total[..n], r.delivered + records)
               else
                 && Receive(cr, r, stack.1, first.out).status == Failed
                 && Receive(cr, r, stack.1, first.out).view.delivered == r.delivered
  {
    hide *;
    OpensMessage(cs, s, cr, r, stack, records, total);
    OpeningPacket(cs, s, stack.0, total);
    OpeningTaken(cs, s, cr, r, stack, records, total);
  }

  lemma OpensMessage(cs: Config, s: View, cr: Config, r: View, stack: (seq<byte>, seq<byte>), records: seq<Record>, total: seq<byte>)
    requires Compatible(cs, s, cr, r, stack) && Starting(cs, s)
    requires records == Offered(cs.version, s.send.pending) && total == EncodeAll(records)
    ensures Runnable(cs, s, stack.0) && cs.fragSize <= 65535 && s.send.output == [] && s.firstFragment
    ensures Collect(cs.version, [], s.send.pending) == Collected(total, [], InvalidState) && total != []
    ensures Parse(total) == Parsed(records, []) && records != []
  {
    hide Parse, EncodeAll, Collect, ViewValid;
    MessageBytes(cs, s);
  }

  /** The first packet of a message: well-formed, no acknowledgement, and what a receiver reads out of it. */
  lemma OpeningPacket(c: Config, v: View, stack: seq<byte>, total: seq<byte>)
    requires Runnable(c, v, stack) && c.fragSize <= 65535 && v.send.output == [] && v.firstFragment
    requires Collect(c.version, [], v.send.pending) == Collected(total, [], InvalidState) && total != []
    ensures var first := BuildPkt(c, v, stack);
            var n := Min(c.fragSize - EAP_HEADER - LENGTH_FIELD, |total|);
            && first.status == NeedMore && first.view.delivered == v.delivered && first.view.processed == v.processed
            && Runnable(c, first.view, stack) && first.view.send.pending == []
            && first.view.firstFragment == (first.view.send.output == []) && Unsent(first.view) == total[n..]
            && PacketsLeft(c, first.view) == PacketsNeeded(|total|, c.fragSize)
            && EAP_HEADER < |first.out| <= c.fragSize && WellFormedPacket(first.out) && !HasFlag(first.out[5], FLAG_START)
            && Payload(c.typ, first.out) == if Announceable(|total|, n) then (true, total[..n]) else (false, [])
  {
    hide Payload, HasFlag, FromU16, BuildPkt, Packet, ViewValid, PacketsLeft, PacketsNeeded, Opening, OpeningFlags, Collect;
    FirstFragment(c, v, stack, total);
    FirstRunnable(c, v, stack);
    var first := BuildPkt(c, v, stack);
    var n := Min(c.fragSize - EAP_HEADER - LENGTH_FIELD, |total|);
    var announce := n < |total| || c.includeLength;
    OpeningPayload(c, Code(c), first.view.identifier, TypeCode(c.typ), total, n, announce);
    PacketsAfterFirst(c, first.view, total);
  }

  lemma OpeningTaken(cs: Config, s: View, cr: Config, r: View, stack: (seq<byte>, seq<byte>), records: seq<Record>, total: seq<byte>)
    requires Compatible(cs, s, cr, r, stack) && r.held == [] && Starting(cs, s)
    requires Parse(total) == Parsed(records, []) && records != []
    requires Collect(cs.version, [], s.send.pending) == Collected(total, [], InvalidState) && total != []
    ensures var first := BuildPkt(cs, s, stack.0);
            var n := Min(cs.fragSize - EAP_HEADER - LENGTH_FIELD, |total|);
            if Announceable(|total|, n) then
              Underway(cs, first.view, cr, r, stack, first.out, total[..n], r.delivered + records)
            else
              && Receive(cr, r, stack.1, first.out).status == Failed
              && Receive(cr, r, stack.1, first.out).view.delivered == r.delivered
  {
    hide Receive, Payload, HasFlag, FromU16, BuildPkt, Parse, Holdable, ViewValid, PacketsLeft, PacketsNeeded, Collect, Unsent,
         WellFormedPacket;
    OpeningPacket(cs, s, stack.0, total);
    var first := BuildPkt(cs, s, stack.0);
    var n := Min(cs.fragSize - EAP_HEADER - LENGTH_FIELD, |total|);
    if !Announceable(|total|, n) {
      ReceiveRejected(cr, r, stack.1, first.out);
    } else {
      assert [] + (total[..n] + total[n..]) == total;
      HoldableEmpty();
    }
  }

  /**
   * End-to-end identity, and exactly when it holds. If the receiver takes the
   * announced length and both message limits allow for the packets needed, the
   * message arrives record for record, in exactly that number of packets, none
   * of which can be mistaken for an acknowledgement; only a last record without
   * data lags when the last packet carries fewer than five bytes. If the length
   * is not taken nothing is delivered, and if a limit is too small the exchange
   * fails after delivering the front of the message.
   */
  lemma TransferDelivers(cs: Config, s: View, cr: Config, r: View, stack: (seq<byte>, seq<byte>))
    requires Compatible(cs, s, cr, r, stack) && r.held == [] && Starting(cs, s)
    ensures var o := Exchange(cs, s, cr, r, stack);
            var records := Offered(cs.version, s.send.pending);
            var total := |EncodeAll(records)|;
            var k := PacketsNeeded(total, cs.fragSize);
            && AllFragments(o.packets, cs.fragSize)
            && if !Announceable(total, Min(cs.fragSize - EAP_HEADER - LENGTH_FIELD, total)) then
                 o.status == Failed && o.receiver.delivered == r.delivered && |o.packets| == 1
               else if !Enough(cs, s, cr, r, k) then
                 BrokenOff(o, r, r.delivered + records) && |o.packets| <= k
               else
                 Arrived(o, cs, s.delivered, r.delivered + records, LastPayload(total, cs.fragSize)) && |o.packets| == k
  {
    hide Receive, BuildPkt, EncodeAll, Underway, ViewValid, PacketsNeeded, PacketsLeft, Parse, LastOfMiddle, Arrived, BrokenOff;
    var records := Offered(cs.version, s.send.pending);
    var total := EncodeAll(records);
    Opens(cs, s, cr, r, stack, records, total);
    var n := Min(cs.fragSize - EAP_HEADER - LENGTH_FIELD, |total|);
    var first := BuildPkt(cs, s, stack.0);
    if Announceable(|total|, n) {
      PumpDelivers(cs, first.view, cr, r, stack, first.out, total[..n], r.delivered + records);
    }
  }

  /** For a message of records of data, under 2^32 bytes, the length is taken exactly up to 73728 bytes. */
  lemma AnnounceableIff(total: nat, n: nat)
    requires n <= total < U32_LIMIT
    ensures Announceable(total, n) <==> total <= TLS_MAX_MESSAGE_LEN
  {
  }

  lemma HoldableEmpty()
    ensures Holdable([])
  {
  }

  /**
   * The cross-object invariant "the next fragment is a first fragment exactly
   * when no output is left" is kept by building a packet, except when the upper
   * layers refuse after having already offered records for the same message.
   */
  lemma FirstFragmentIffNoOutput(c: Config, v: View, stack: seq<byte>)
    requires Runnable(c, v, stack) && (v.firstFragment <==> v.send.output == [])
    ensures var w := BuildPkt(c, v, stack).view;
            var asked := Collect(c.version, [], v.send.pending);
            (w.firstFragment <==> w.send.output == []) <==>
            !(v.send.output == [] && asked.stop != InvalidState && asked.bytes != [])
  {
    hide Collect, Packet, Body;
    CollectStops(c.version, [], v.send.pending);
  }

  /** EAP-TLS with fragments of 1024 bytes, no message limit, and upper layers that take everything. */
  function Sample(isServer: bool): Config {
    Config(EapTls, isServer, false, 1024, 0, 771, fs => NeedMore, fs => false)
  }

  function SampleView(pending: seq<Outgoing>): View {
    View(0, true, 0, Sending([], 0, pending), [], [])
  }

  /** Two records of 40000 bytes make a message over the limit: its first packet is refused and nothing arrives. */
  lemma OverLimitRefused()
    ensures var record := Emit(23, Fill(0, 40000));
            var (cs, s, cr, r) := (Sample(true), SampleView([record, record]), Sample(false), SampleView([]));
            var stack := (Fill(0, 1024), Fill(0, 1024));
            && Compatible(cs, s, cr, r, stack) && r.held == [] && Starting(cs, s)
            && var o := Exchange(cs, s, cr, r, stack);
               o.status == Failed && o.receiver.delivered == [] && |o.packets| == 1
  {
    hide Exchange, EncodeAll;
    var record := Emit(23, Fill(0, 40000));
    var (cs, s, cr, r) := (Sample(true), SampleView([record, record]), Sample(false), SampleView([]));
    var stack := (Fill(0, 1024), Fill(0, 1024));
    assert forall fs :: Insatiable(cr, fs);
    assert Compatible(cs, s, cr, r, stack) && Starting(cs, s);
    var records := Offered(cs.version, s.send.pending);
    TwoRecords(records, 40000);
    TransferDelivers(cs, s, cr, r, stack);
    AnnounceableIff(80010, 1014);
  }

  lemma TwoRecords(rs: seq<Record>, n: nat)
    requires |rs| == 2 && |rs[0].data| == |rs[1].data| == n
    ensures |EncodeAll(rs)| == 2 * (HEADER + n)
  {
    assert rs[1..][0] == rs[1] && rs[1..][1..] == [];
    assert |EncodeAll(rs[1..])| == HEADER + n;
  }

  /** A receiver that may process only one packet breaks off a transfer that takes more. */
  lemma LimitTooSmall()
    ensures var record := Emit(23, Fill(0, 2000));
            var (cs, s, cr, r) := (Sample(true), SampleView([record, record]), Sample(false).(maxMsgCount := 1), SampleView([]));
            var stack := (Fill(0, 1024), Fill(0, 1024));
            && Compatible(cs, s, cr, r, stack) && r.held == [] && Starting(cs, s)
            && Exchange(cs, s, cr, r, stack).status == Failed
  {
    hide Exchange, EncodeAll;
    var record := Emit(23, Fill(0, 2000));
    var (cs, s, cr, r) := (Sample(true), SampleView([record, record]), Sample(false).(maxMsgCount := 1), SampleView([]));
    var stack := (Fill(0, 1024), Fill(0, 1024));
    assert forall fs :: Insatiable(cr, fs);
    assert Compatible(cs, s, cr, r, stack) && Starting(cs, s);
    var records := Offered(cs.version, s.send.pending);
    TwoRecords(records, 2000);
    TransferDelivers(cs, s, cr, r, stack);
    AnnounceableIff(4010, 1014);
    assert PacketsNeeded(4010, 1024) == 1 + MiddlePackets(2996, 1024);
    assert MiddlePackets(2996, 1024) >= 1;
  }
}
