/**
 * Two gateways and a network between them that may drop, duplicate and reorder:
 * what the receiver delivers, over every schedule.
 */
module EspRun {
  import opened Bytes
  import opened EspContext
  import opened IpPacket
  import opened EspPacket
  import opened IpsecSa
  import opened PolicyManager
  import opened IpsecProcessor

  /** A packet offered to the sender, or the k-th packet sent so far reaching the receiver (again). */
  datatype Event = Offer(raw: seq<byte>) | Arrive(k: nat, dst: seq<byte>)

  /** SAs with the same SPI on the two sides share a sound cipher of a shape ESP can pad for. */
  ghost predicate Paired(sender: Processor, receiver: Processor) {
    forall sa <- sender.sas, sb <- receiver.sas :: sa.spi == sb.spi && !sa.inbound && sb.inbound ==>
      sb.context.aead == sa.context.aead && AeadOk(sa.context.aead) && CipherShape(sa.context.aead)
  }

  ghost predicate Disjoint(sender: Processor, receiver: Processor) {
    sender != receiver &&
    forall sa <- sender.sas, sb <- receiver.sas ::
      sa != sb && sa.context != sb.context && sa.context.window != sb.context.window
  }

  /** As the SPI allocator keeps them. */
  predicate DistinctInbound(sas: seq<Sa>) {
    forall i, j :: 0 <= i < j < |sas| && sas[i].inbound && sas[j].inbound ==> sas[i].spi != sas[j].spi
  }

  predicate DistinctOutbound(sas: seq<Sa>) {
    forall i, j :: 0 <= i < j < |sas| && !sas[i].inbound && !sas[j].inbound ==> sas[i].spi != sas[j].spi
  }

  ghost predicate Readable(ip: Ip) {
    exists raw :: Create(raw) == Some(ip)
  }

  /** The delivery is of the packet sent, unaltered. */
  ghost predicate Genuine(r: Receipt, i: Issue) {
    r.data == i.data && r.seqno == i.seqno && r.ip == i.ip && r.nextHeader == i.nextHeader
  }

  /** Bytes sent under one SA and delivered under its counterpart carry the same number and packet. */
  lemma DeliveredIsSent(r: Receipt, i: Issue)
    requires ReceiptOk(r) && IssueOk(i) && r.data == i.data && Readable(i.ip)
    requires r.sa.context.aead == i.sa.context.aead && AeadOk(i.sa.context.aead) && CipherShape(i.sa.context.aead)
    requires i.sa.spi < U32_LIMIT
    ensures Genuine(r, i)
  {
    hide Sealed, Split, Create, Unpad, Applies, Plaintext, FromU32;
    var a := i.sa.context.aead;
    SplitSealed(a, i.sa.spi, i.seqno, i.ip.packet, i.nextHeader);
    UnpadPlaintext(a, i.ip.packet, i.nextHeader);
    var raw :| Create(raw) == Some(i.ip);
    ReparseIff(raw);
  }

  /** The SPI on the wire is the sending SA's. */
  lemma SpiOnWire(i: Issue)
    requires IssueOk(i) && i.sa.spi < U32_LIMIT
    ensures |i.data| >= ESP_HEADER && FromU32(i.data[0..4]) == i.sa.spi
  {
    hide U32, FromU32, Plaintext;
    U32RoundTrip(i.sa.spi);
    U32RoundTrip(i.seqno);
    assert i.data[0..4] == U32(i.sa.spi);
  }

  ghost predicate WasSent(data: seq<byte>, issues: seq<Issue>) {
    exists k :: 0 <= k < |issues| && data == issues[k].data
  }

  ghost predicate FromNetwork(receipts: seq<Receipt>, issues: seq<Issue>) {
    forall i :: 0 <= i < |receipts| ==> WasSent(receipts[i].data, issues)
  }

  /** A delivery under an inbound policy for its SA's request id, of a packet sent. */
  ghost predicate DeliveryOk(r: Receipt, ip: Ip, issues: seq<Issue>) {
    && ip == r.ip
    && Applies(r.policy, ip, true, r.sa.reqid)
    && exists k :: 0 <= k < |issues| && Genuine(r, issues[k])
  }

  ghost predicate AllReadable(issues: seq<Issue>) {
    forall k :: 0 <= k < |issues| ==> Readable(issues[k].ip)
  }

  // ----- what must be delivered

  /** Number n was sent under an SPI. */
  ghost predicate Numbered(issues: seq<Issue>, spi: nat, n: nat) {
    exists k :: 0 <= k < |issues| && issues[k].sa.spi == spi && issues[k].seqno == n
  }

  /** Every number marked by a receiving SA was sent under its SPI. */
  ghost predicate Traced(marks: map<Sa, Mark>, issues: seq<Issue>) {
    forall sb <- marks.Keys, n: nat :: n in marks[sb].accepted ==> Numbered(issues, sb.spi, n)
  }

  /** SA sb is there to deliver packet i: its stated length covers its header, there is a callback, and a policy lets it in. */
  ghost predicate Deliverable(receiver: Processor, i: Issue, sb: Sa)
    reads receiver`inboundCallback, receiver.policies
  {
    && sb.inbound && sb.spi == i.sa.spi && |i.ip.packet| >= IPV4_HEADER
    && receiver.inboundCallback.Some? && receiver.LetIn(i.ip, i.nextHeader, sb.reqid)
  }

  ghost predicate Got(receipts: seq<Receipt>, sb: Sa, i: Issue) {
    exists j :: 0 <= j < |receipts| && receipts[j].sa == sb && Genuine(receipts[j], i)
  }

  /** What could be delivered when its number was marked was delivered. */
  ghost predicate Settled(receiver: Processor, marks: map<Sa, Mark>, issues: seq<Issue>, receipts: seq<Receipt>)
    reads receiver`inboundCallback, receiver.policies
  {
    forall sb <- marks.Keys, k :: 0 <= k < |issues| && issues[k].seqno in marks[sb].accepted && Deliverable(receiver, issues[k], sb) ==>
      Got(receipts, sb, issues[k])
  }

  /** The number of packet i was marked, has fallen out of the window, or the SA has expired. */
  ghost predicate Past(i: Issue, sb: Sa, marks: map<Sa, Mark>, standings: map<Sa, Standing>) {
    && sb in marks && sb in standings
    && (i.seqno in marks[sb].accepted || i.seqno + WINDOW <= marks[sb].last || standings[sb].usage.hard)
  }

  /** Packets to a destination under an SPI are for inbound SA sb and no other. */
  ghost predicate Sole(sb: Sa, spi: nat, dst: seq<byte>, standings: map<Sa, Standing>) {
    && sb in standings && sb.inbound && sb.spi == spi && standings[sb].dst == dst
    && forall s <- standings.Keys :: s.spi == spi && standings[s].dst == dst ==> s == sb
  }

  /** A packet that arrived at an SA of its own is past it. */
  ghost predicate Arrived(k: nat, dst: seq<byte>, issues: seq<Issue>, marks: map<Sa, Mark>, standings: map<Sa, Standing>) {
    k < |issues| && forall sb <- marks.Keys :: Sole(sb, issues[k].sa.spi, dst, standings) ==> Past(issues[k], sb, marks, standings)
  }

  /** Marks and counters only grow, and addresses stay. */
  ghost predicate Later(marks: map<Sa, Mark>, standings: map<Sa, Standing>, marks': map<Sa, Mark>, standings': map<Sa, Standing>) {
    && marks.Keys == marks'.Keys && standings.Keys == standings'.Keys
    && (forall sb <- marks.Keys :: marks[sb].accepted <= marks'[sb].accepted && marks[sb].last <= marks'[sb].last)
    && (forall sb <- standings.Keys :: standings'[sb].dst == standings[sb].dst && (standings[sb].usage.hard ==> standings'[sb].usage.hard))
  }

  lemma ArrivedLater(k: nat, dst: seq<byte>, issues: seq<Issue>, marks: map<Sa, Mark>, standings: map<Sa, Standing>,
                     issues': seq<Issue>, marks': map<Sa, Mark>, standings': map<Sa, Standing>)
    requires Arrived(k, dst, issues, marks, standings) && Later(marks, standings, marks', standings')
    requires |issues| <= |issues'| && issues'[..|issues|] == issues
    ensures Arrived(k, dst, issues', marks', standings')
  {
    assert issues'[k] == issues'[..|issues|][k];
    forall sb <- marks'.Keys | Sole(sb, issues[k].sa.spi, dst, standings')
      ensures Past(issues[k], sb, marks', standings')
    {
      assert Sole(sb, issues[k].sa.spi, dst, standings);
      assert Past(issues[k], sb, marks, standings);
    }
  }

  /** The sender's log moves by at most the packet offered. */
  ghost predicate Tick(e: Event, was: nat, now: nat, issues: seq<Issue>) {
    was <= now <= |issues| &&
    match e
    case Arrive(_, _) => now == was
    case Offer(raw) => now == was || (now == was + 1 && Create(raw) == Some(issues[was].ip))
  }

  /** How many packets had been sent before every event, and after the last. */
  ghost predicate Clocked(schedule: seq<Event>, sentBy: seq<nat>, issues: seq<Issue>) {
    && |sentBy| == |schedule| + 1 && sentBy[0] == 0 && sentBy[|schedule|] == |issues|
    && forall m :: 0 <= m < |schedule| ==> Tick(schedule[m], sentBy[m], sentBy[m + 1], issues)
  }

  lemma ClockedStep(schedule: seq<Event>, sentBy: seq<nat>, issues: seq<Issue>, e: Event, issues': seq<Issue>)
    requires Clocked(schedule, sentBy, issues) && Tick(e, |issues|, |issues'|, issues')
    requires |issues| <= |issues'| && issues'[..|issues|] == issues
    ensures Clocked(schedule + [e], sentBy + [|issues'|], issues')
  {
    hide Create;
    var (events, counts) := (schedule + [e], sentBy + [|issues'|]);
    forall m | 0 <= m < |events|
      ensures Tick(events[m], counts[m], counts[m + 1], issues')
    {
      if m < |schedule| {
        assert Tick(schedule[m], sentBy[m], sentBy[m + 1], issues);
        assert forall i :: 0 <= i < |issues| ==> issues'[i] == issues'[..|issues|][i];
      }
    }
  }

  /** Every packet that has arrived so far is past its SA. */
  ghost predicate AllArrived(schedule: seq<Event>, sentBy: seq<nat>, issues: seq<Issue>, marks: map<Sa, Mark>, standings: map<Sa, Standing>) {
    |schedule| <= |sentBy| &&
    forall m :: 0 <= m < |schedule| && schedule[m].Arrive? && schedule[m].k < sentBy[m] ==>
      Arrived(schedule[m].k, schedule[m].dst, issues, marks, standings)
  }

  lemma AllArrivedStep(schedule: seq<Event>, sentBy: seq<nat>, issues: seq<Issue>, marks: map<Sa, Mark>, standings: map<Sa, Standing>,
                       e: Event, issues': seq<Issue>, marks': map<Sa, Mark>, standings': map<Sa, Standing>)
    requires AllArrived(schedule, sentBy, issues, marks, standings) && |sentBy| == |schedule| + 1
    requires Later(marks, standings, marks', standings') && |issues| <= |issues'| && issues'[..|issues|] == issues
    requires e.Arrive? && e.k < sentBy[|schedule|] ==> Arrived(e.k, e.dst, issues', marks', standings')
    ensures AllArrived(schedule + [e], sentBy + [|issues'|], issues', marks', standings')
  {
    hide Arrived, Later;
    var (events, counts) := (schedule + [e], sentBy + [|issues'|]);
    forall m | 0 <= m < |events| && events[m].Arrive? && events[m].k < counts[m]
      ensures Arrived(events[m].k, events[m].dst, issues', marks', standings')
    {
      if m < |schedule| {
        ArrivedLater(schedule[m].k, schedule[m].dst, issues, marks, standings, issues', marks', standings');
      }
    }
  }

  /** One number under one SPI is one packet. */
  lemma OneNumberOnePacket(sender: Processor, k: nat, k': nat)
    requires sender.Valid() && DistinctOutbound(sender.sas) && k < |sender.issues| && k' < |sender.issues|
    requires sender.issues[k].sa.spi == sender.issues[k'].sa.spi && sender.issues[k].seqno == sender.issues[k'].seqno
    ensures k == k'
  {
    hide ReceiptOk, Sealed;
    assert IssueOk(sender.issues[k]) && IssueOk(sender.issues[k']);
    assert SaOk(sender.issues[k].sa) && SaOk(sender.issues[k'].sa);
  }

  /** A packet newly sent has a number no receiver has marked. */
  lemma OfferKeeps(sender: Processor, receiver: Processor, marks: map<Sa, Mark>, issues: seq<Issue>, receipts: seq<Receipt>)
    requires sender.Valid() && DistinctOutbound(sender.sas)
    requires Traced(marks, issues) && Settled(receiver, marks, issues, receipts)
    requires |issues| <= |sender.issues| <= |issues| + 1 && sender.issues[..|issues|] == issues
    ensures Traced(marks, sender.issues) && Settled(receiver, marks, sender.issues, receipts)
  {
    hide Processor.Valid, Deliverable, Got;
    var issues' := sender.issues;
    assert forall k :: 0 <= k < |issues| ==> issues'[k] == issues'[..|issues|][k];
    forall sb <- marks.Keys, n: nat | n in marks[sb].accepted
      ensures Numbered(issues', sb.spi, n)
    {
      assert Numbered(issues, sb.spi, n);
      var k :| 0 <= k < |issues| && issues[k].sa.spi == sb.spi && issues[k].seqno == n;
      assert issues'[k] == issues[k];
    }
    forall sb <- marks.Keys, k | 0 <= k < |issues'| && issues'[k].seqno in marks[sb].accepted && Deliverable(receiver, issues'[k], sb)
      ensures Got(receipts, sb, issues'[k])
    {
      if k == |issues| {
        DeliverableSpi(receiver, issues'[k], sb);
        assert Numbered(issues, sb.spi, issues'[k].seqno);
        var k' :| 0 <= k' < |issues| && issues[k'].sa.spi == sb.spi && issues[k'].seqno == issues'[k].seqno;
        OneNumberOnePacket(sender, k, k');
      }
    }
  }

  lemma DeliverableSpi(receiver: Processor, i: Issue, sb: Sa)
    requires Deliverable(receiver, i, sb)
    ensures sb.inbound && sb.spi == i.sa.spi
  {
  }

  /** What a packet sent does to the marks of a counterpart it reaches, and what is inside. */
  lemma MarkOfArrival(i: Issue, sb: Sa, m: Mark)
    requires IssueOk(i) && i.sa.spi < U32_LIMIT && Readable(i.ip)
    requires sb.context.aead == i.sa.context.aead && AeadOk(i.sa.context.aead) && CipherShape(i.sa.context.aead)
    ensures MarkAfter(sb.context.aead, true, m, i.data)
         == if Acceptable(m.accepted, m.last, i.seqno) then Mark(m.accepted + {i.seqno}, Max(i.seqno, m.last)) else m
    ensures |i.ip.packet| >= IPV4_HEADER && Acceptable(m.accepted, m.last, i.seqno) ==>
              && Outcome(sb.context.aead, true, m.accepted, m.last, i.data).status == Success
              && Inner(sb.context.aead, i.data) == Some((i.ip, i.nextHeader))
  {
    hide Sealed, Split, Create, Unpad, Plaintext;
    var a := i.sa.context.aead;
    SplitSealed(a, i.sa.spi, i.seqno, i.ip.packet, i.nextHeader);
    UnpadPlaintext(a, i.ip.packet, i.nextHeader);
    if |i.ip.packet| >= IPV4_HEADER {
      var raw :| Create(raw) == Some(i.ip);
      LongEnough(raw);
      ReparseIff(raw);
    }
  }

  /** An encoding of 20 bytes has a stated length that covers the header. */
  lemma LongEnough(raw: seq<byte>)
    requires Create(raw).Some?
    ensures |Create(raw).value.packet| >= IPV4_HEADER <==> LengthCoversHeader(raw)
  {
    hide FromU16;
  }

  /** The marks after packet k reached the SA it is for, if there is one. */
  ghost predicate MarkedBy(i: Issue, target: Option<Sa>, marks: map<Sa, Mark>, marks': map<Sa, Mark>) {
    && marks'.Keys == marks.Keys
    && forall sb <- marks.Keys ::
         marks'[sb] == if target == Some(sb) && Acceptable(marks[sb].accepted, marks[sb].last, i.seqno)
                       then Mark(marks[sb].accepted + {i.seqno}, Max(i.seqno, marks[sb].last)) else marks[sb]
  }

  lemma MarksOfArrival(sender: Processor, receiver: Processor, k: nat, target: Option<Sa>)
    requires sender.Valid() && receiver.Valid() && Paired(sender, receiver) && AllReadable(sender.issues) && k < |sender.issues|
    requires target.Some? ==> target.value in receiver.sas && target.value.inbound &&
                              |sender.issues[k].data| >= ESP_HEADER && FromU32(sender.issues[k].data[0..4]) == target.value.spi
    ensures MarkedBy(sender.issues[k], target, receiver.Marks(), MarksAfter(receiver.Marks(), target, sender.issues[k].data))
    ensures target.Some? ==> target.value.spi == sender.issues[k].sa.spi
    ensures target.Some? && |sender.issues[k].ip.packet| >= IPV4_HEADER &&
            Acceptable(target.value.context.accepted, target.value.context.lastSeqno, sender.issues[k].seqno) ==>
              && receiver.Accepts(target.value, sender.issues[k].data)
              && Inner(target.value.context.aead, sender.issues[k].data) == Some((sender.issues[k].ip, sender.issues[k].nextHeader))
  {
    hide Sealed, Opened, Inner, Outcome, MarkAfter, FromU32, AeadOk, CipherShape, Readable, ReceiptOk, Acceptable;
    var i := sender.issues[k];
    assert IssueOk(i) && SaOk(i.sa) && Readable(i.ip);
    SpiOnWire(i);
    if target.Some? {
      var sb := target.value;
      assert SaOk(sb);
      MarkOfArrival(i, sb, receiver.Marks()[sb]);
    }
  }

  /** Packet k, if it could be delivered when it was marked, was delivered; so everything stays settled. */
  lemma ArrivalKeeps(sender: Processor, receiver: Processor, k: nat, target: Option<Sa>, marks: map<Sa, Mark>, marks': map<Sa, Mark>,
                     receipts: seq<Receipt>, receipts': seq<Receipt>)
    requires sender.Valid() && DistinctOutbound(sender.sas) && k < |sender.issues|
    requires Traced(marks, sender.issues) && Settled(receiver, marks, sender.issues, receipts)
    requires MarkedBy(sender.issues[k], target, marks, marks') && |receipts| <= |receipts'| && receipts'[..|receipts|] == receipts
    requires target.Some? ==> target.value.spi == sender.issues[k].sa.spi
    requires target.Some? && target.value in marks && Deliverable(receiver, sender.issues[k], target.value) &&
             Acceptable(marks[target.value].accepted, marks[target.value].last, sender.issues[k].seqno) ==>
               Got(receipts', target.value, sender.issues[k])
    ensures Traced(marks', sender.issues) && Settled(receiver, marks', sender.issues, receipts')
  {
    hide Processor.Valid, Deliverable, Acceptable, Genuine;
    var issues := sender.issues;
    forall sb <- marks'.Keys, n: nat | n in marks'[sb].accepted
      ensures Numbered(issues, sb.spi, n)
    {
      if n !in marks[sb].accepted {
        assert n == issues[k].seqno;
      }
    }
    forall sb <- marks'.Keys, k' | 0 <= k' < |issues| && issues[k'].seqno in marks'[sb].accepted && Deliverable(receiver, issues[k'], sb)
      ensures Got(receipts', sb, issues[k'])
    {
      if issues[k'].seqno in marks[sb].accepted {
        assert Got(receipts, sb, issues[k']);
        var j :| 0 <= j < |receipts| && receipts[j].sa == sb && Genuine(receipts[j], issues[k']);
        assert receipts'[j] == receipts'[..|receipts|][j];
      } else {
        DeliverableSpi(receiver, issues[k'], sb);
        OneNumberOnePacket(sender, k, k');
      }
    }
  }

  /** The SA alone at its SPI and destination is the one a packet is for, until it expires. */
  lemma SoleIsTarget(receiver: Processor, sb: Sa, data: seq<byte>, dst: seq<byte>)
    requires |data| >= ESP_HEADER && Sole(sb, FromU32(data[0..4]), dst, receiver.Standings())
    ensures receiver.Target(data, dst) == if sb.hardExpired then None else Some(sb)
  {
    hide FromU32, Processor.FirstBySpi;
    var spi := FromU32(data[0..4]);
    var found := receiver.FirstBySpi(0, spi, dst);
    if found.Some? {
      assert receiver.Standings()[found.value].dst == dst;
    } else {
      assert sb in receiver.sas;
      assert !sb.MatchBySpiDst(spi, dst);
    }
  }

  /** A packet is past the SA it reached. */
  lemma ArrivalPasses(i: Issue, dst: seq<byte>, target: Option<Sa>, marks: map<Sa, Mark>, standings: map<Sa, Standing>,
                      marks': map<Sa, Mark>, standings': map<Sa, Standing>)
    requires MarkedBy(i, target, marks, marks') && Later(marks, standings, marks', standings')
    requires marks.Keys == standings.Keys && SoleTargets(i, dst, target, standings)
    ensures forall sb <- marks'.Keys :: Sole(sb, i.sa.spi, dst, standings') ==> Past(i, sb, marks', standings')
  {
    forall sb <- marks'.Keys | Sole(sb, i.sa.spi, dst, standings')
      ensures Past(i, sb, marks', standings')
    {
      assert Sole(sb, i.sa.spi, dst, standings);
      assert standings[sb].usage.hard ==> standings'[sb].usage.hard;
      assert !standings[sb].usage.hard ==> target == Some(sb);
    }
  }

  /** No number marked yet. */
  ghost predicate Unmarked(receiver: Processor)
    reads set sa | sa in receiver.sas :: sa.context
  {
    forall sa <- receiver.sas :: sa.context.accepted == {}
  }

  /** What the receiver has marked was sent, and was delivered if it could be. */
  ghost predicate Linked(sender: Processor, receiver: Processor)
    reads sender`issues, receiver`inboundCallback, receiver`receipts, receiver.policies, set sa | sa in receiver.sas :: sa.context
  {
    && Traced(receiver.Marks(), sender.issues)
    && Settled(receiver, receiver.Marks(), sender.issues, receiver.receipts)
  }

  /** An SA alone at its SPI and destination that is not expired, and behind which packet k has not fallen, delivered it if it could be. */
  ghost predicate MustHave(sender: Processor, receiver: Processor, k: nat, dst: seq<byte>)
    reads sender`issues, receiver`inboundCallback, receiver`receipts, receiver.policies, receiver.sas,
          set sa | sa in receiver.sas :: sa.context
  {
    k < |sender.issues| &&
    forall sb <- receiver.sas ::
      && Sole(sb, sender.issues[k].sa.spi, dst, receiver.Standings()) && !sb.hardExpired
      && sb.context.lastSeqno - sender.issues[k].seqno < WINDOW && Deliverable(receiver, sender.issues[k], sb) ==>
        Got(receiver.receipts, sb, sender.issues[k])
  }

  lemma ArrivedMustHave(sender: Processor, receiver: Processor, k: nat, dst: seq<byte>)
    requires Linked(sender, receiver) && Arrived(k, dst, sender.issues, receiver.Marks(), receiver.Standings())
    ensures MustHave(sender, receiver, k, dst)
  {
    hide Got, Deliverable, Sole;
    forall sb <- receiver.sas
      | && Sole(sb, sender.issues[k].sa.spi, dst, receiver.Standings()) && !sb.hardExpired
        && sb.context.lastSeqno - sender.issues[k].seqno < WINDOW && Deliverable(receiver, sender.issues[k], sb)
      ensures Got(receiver.receipts, sb, sender.issues[k])
    {
      assert sb in receiver.Marks().Keys;
      assert Past(sender.issues[k], sb, receiver.Marks(), receiver.Standings());
    }
  }

  /**
   * Whole-run delivery: whatever the network does, no SA emits a number twice,
   * every delivery is a genuine copy of a packet sent and has an inbound policy
   * behind it, and no SA delivers the same packet twice; where inbound SPIs are
   * distinct no packet is delivered twice at all. Where outbound SPIs are
   * distinct and the receiver starts with nothing marked, every packet that
   * arrived must have been delivered, unless its SA expired, it fell out of the
   * window, its stated length does not cover its header, or no policy or
   * callback is there for it. Every SA checked out along the way was checked in
   * again.
   */
  method Run(sender: Processor, receiver: Processor, schedule: seq<Event>) returns (ghost sentBy: seq<nat>)
    requires sender.Valid() && receiver.Valid() && Disjoint(sender, receiver) && Paired(sender, receiver)
    requires sender.issues == [] && receiver.receipts == []
    modifies sender, receiver, sender.sas, receiver.sas,
             set sa | sa in sender.sas :: sa.context, set sa | sa in receiver.sas :: sa.context,
             set sa | sa in receiver.sas :: sa.context.window
    ensures sender.Valid() && receiver.Valid()
    ensures sender.checkedOut == old(sender.checkedOut) && receiver.checkedOut == old(receiver.checkedOut)
    ensures forall i, j :: 0 <= i < j < |sender.issues| && sender.issues[i].sa == sender.issues[j].sa ==>
              sender.issues[i].seqno != sender.issues[j].seqno
    ensures |receiver.delivered| == |receiver.receipts|
    ensures forall i :: 0 <= i < |receiver.receipts| ==>
              DeliveryOk(receiver.receipts[i], receiver.delivered[i], sender.issues)
    ensures forall i, j :: 0 <= i < j < |receiver.receipts| && receiver.receipts[i].sa == receiver.receipts[j].sa ==>
              receiver.receipts[i].data != receiver.receipts[j].data
    ensures DistinctInbound(receiver.sas) ==>
              forall i, j :: 0 <= i < j < |receiver.receipts| ==> receiver.receipts[i].data != receiver.receipts[j].data
    ensures Clocked(schedule, sentBy, sender.issues) && receiver.inboundCallback == old(receiver.inboundCallback)
    ensures old(Unmarked(receiver)) && DistinctOutbound(sender.sas) ==>
              forall m :: 0 <= m < |schedule| && schedule[m].Arrive? && schedule[m].k < sentBy[m] ==>
                MustHave(sender, receiver, schedule[m].k, schedule[m].dst)
  {
    hide Processor.Valid, Clocked, AllArrived, Linked, MustHave, FromNetwork, AllReadable, Paired, DeliveryOk, Unmarked,
         DistinctOutbound, DistinctInbound, Processor.Marks, Processor.Standings;
    sentBy := [0];
    ghost var tracked := Unmarked(receiver) && DistinctOutbound(sender.sas);
    StartRun(sender, receiver);
    for n := 0 to |schedule|
      invariant sender.Valid() && receiver.Valid() && receiver.inboundCallback == old(receiver.inboundCallback)
      invariant sender.checkedOut == old(sender.checkedOut) && receiver.checkedOut == old(receiver.checkedOut)
      invariant FromNetwork(receiver.receipts, sender.issues) && AllReadable(sender.issues)
      invariant |sentBy| == n + 1 && sentBy[n] == |sender.issues| && Clocked(schedule[..n], sentBy, sender.issues)
      invariant AllArrived(schedule[..n], sentBy, sender.issues, receiver.Marks(), receiver.Standings())
      invariant tracked ==> Linked(sender, receiver)
    {
      sentBy := RunStep(sender, receiver, schedule[..n], sentBy, schedule[n]);
      assert schedule[..n + 1] == schedule[..n] + [schedule[n]];
    }
    assert schedule[..|schedule|] == schedule;
    Conclude(sender, receiver);
    if tracked {
      ConcludeArrivals(sender, receiver, schedule, sentBy);
    }
  }

  lemma StartRun(sender: Processor, receiver: Processor)
    requires sender.issues == [] && receiver.receipts == []
    ensures FromNetwork(receiver.receipts, sender.issues) && AllReadable(sender.issues)
    ensures Clocked([], [0], sender.issues) && AllArrived([], [0], sender.issues, receiver.Marks(), receiver.Standings())
    ensures Unmarked(receiver) ==> Linked(sender, receiver)
  {
  }

  lemma ConcludeArrivals(sender: Processor, receiver: Processor, schedule: seq<Event>, sentBy: seq<nat>)
    requires Linked(sender, receiver) && |sentBy| == |schedule| + 1
    requires AllArrived(schedule, sentBy, sender.issues, receiver.Marks(), receiver.Standings())
    ensures forall m :: 0 <= m < |schedule| && schedule[m].Arrive? && schedule[m].k < sentBy[m] ==>
              MustHave(sender, receiver, schedule[m].k, schedule[m].dst)
  {
    hide Linked, Arrived, MustHave;
    forall m | 0 <= m < |schedule| && schedule[m].Arrive? && schedule[m].k < sentBy[m]
      ensures MustHave(sender, receiver, schedule[m].k, schedule[m].dst)
    {
      ArrivedMustHave(sender, receiver, schedule[m].k, schedule[m].dst);
    }
  }

  /** One event, with the log of the run so far. */
  method RunStep(sender: Processor, receiver: Processor, ghost before: seq<Event>, ghost sentBy: seq<nat>, event: Event)
      returns (ghost sentBy': seq<nat>)
    requires sender.Valid() && receiver.Valid() && Disjoint(sender, receiver) && Paired(sender, receiver)
    requires FromNetwork(receiver.receipts, sender.issues) && AllReadable(sender.issues)
    requires |sentBy| == |before| + 1 && sentBy[|before|] == |sender.issues| && Clocked(before, sentBy, sender.issues)
    requires AllArrived(before, sentBy, sender.issues, receiver.Marks(), receiver.Standings())
    modifies sender, receiver, sender.sas, receiver.sas,
             set sa | sa in sender.sas :: sa.context, set sa | sa in receiver.sas :: sa.context,
             set sa | sa in receiver.sas :: sa.context.window
    ensures sender.Valid() && receiver.Valid() && receiver.inboundCallback == old(receiver.inboundCallback)
    ensures sender.checkedOut == old(sender.checkedOut) && receiver.checkedOut == old(receiver.checkedOut)
    ensures FromNetwork(receiver.receipts, sender.issues) && AllReadable(sender.issues)
    ensures |sentBy'| == |before| + 2 && sentBy'[|before| + 1] == |sender.issues| && Clocked(before + [event], sentBy', sender.issues)
    ensures AllArrived(before + [event], sentBy', sender.issues, receiver.Marks(), receiver.Standings())
    ensures DistinctOutbound(sender.sas) && old(Linked(sender, receiver)) ==> Linked(sender, receiver)
  {
    hide Processor.Valid, Clocked, AllArrived, Linked, Later, Arrived, FromNetwork, AllReadable, Paired, Create, DistinctOutbound;
    ghost var (issues, marks, standings) := (sender.issues, receiver.Marks(), receiver.Standings());
    match event {
      case Offer(raw) =>
        SenderStep(sender, receiver, raw);
        assert Later(marks, standings, receiver.Marks(), receiver.Standings()) by { NoLater(marks, standings); }
      case Arrive(k, dst) =>
        assert |sender.sent| == |sender.issues| by { SentAll(sender); }
        if k < |sender.sent| {
          ReceiverStep(sender, receiver, k, sender.sent[k], dst);
        } else {
          NoLater(marks, standings);
        }
        assert sender.issues[..|issues|] == issues;
    }
    ClockedStep(before, sentBy, issues, event, sender.issues);
    AllArrivedStep(before, sentBy, issues, marks, standings, event, sender.issues, receiver.Marks(), receiver.Standings());
    sentBy' := sentBy + [|sender.issues|];
  }

  lemma SentAll(sender: Processor)
    requires sender.Valid()
    ensures |sender.sent| == |sender.issues|
  {
  }

  lemma NoLater(marks: map<Sa, Mark>, standings: map<Sa, Standing>)
    ensures Later(marks, standings, marks, standings)
  {
  }

  /** An accepted packet is offered to the sender, which leaves the receiver alone. */
  method Send(sender: Processor, ghost receiver: Processor, ip: Ip)
    requires sender.Valid() && receiver.Valid() && Disjoint(sender, receiver)
    modifies sender, sender.sas, set sa | sa in sender.sas :: sa.context
    ensures sender.Valid() && receiver.Valid() && sender.checkedOut == old(sender.checkedOut)
    ensures |old(sender.issues)| <= |sender.issues| <= |old(sender.issues)| + 1
    ensures sender.issues[..|old(sender.issues)|] == old(sender.issues)
    ensures |sender.issues| > |old(sender.issues)| ==> sender.issues[|old(sender.issues)|].ip == ip
    ensures receiver.Marks() == old(receiver.Marks()) && receiver.Standings() == old(receiver.Standings())
  {
    hide Processor.Valid, Processor.Seals, Processor.FirstByReqid, Applies, Used, Processor.Marks, Manager.Best;
    assert forall sb <- receiver.sas :: sb !in sender.sas;
    var _ := sender.ProcessOutbound(ip);
    assert forall sb <- receiver.sas :: unchanged(sb);
  }

  method SenderStep(sender: Processor, ghost receiver: Processor, raw: seq<byte>)
    requires sender.Valid() && receiver.Valid() && Disjoint(sender, receiver)
    requires FromNetwork(receiver.receipts, sender.issues) && AllReadable(sender.issues)
    modifies sender, sender.sas, set sa | sa in sender.sas :: sa.context
    ensures sender.Valid() && receiver.Valid() && sender.checkedOut == old(sender.checkedOut)
    ensures FromNetwork(receiver.receipts, sender.issues) && AllReadable(sender.issues)
    ensures |old(sender.issues)| <= |sender.issues| && sender.issues[..|old(sender.issues)|] == old(sender.issues)
    ensures Tick(Offer(raw), |old(sender.issues)|, |sender.issues|, sender.issues)
    ensures receiver.Marks() == old(receiver.Marks()) && receiver.Standings() == old(receiver.Standings())
    ensures DistinctOutbound(sender.sas) && old(Linked(sender, receiver)) ==> Linked(sender, receiver)
  {
    hide Create, Readable, FromNetwork, Processor.Valid, Traced, Settled, Processor.Marks, Processor.Standings, DistinctOutbound;
    ghost var (was, marks) := (sender.issues, receiver.Marks());
    var ip := Create(raw);
    if ip.None? {
      return;
    }
    assert Readable(ip.value) by { ReadIs(raw); }
    Send(sender, receiver, ip.value);
    ReceiptsStillFrom(receiver.receipts, was, sender.issues);
    ReadableGrows(was, sender.issues, ip.value);
    if DistinctOutbound(sender.sas) && old(Linked(sender, receiver)) {
      OfferKeeps(sender, receiver, marks, was, receiver.receipts);
    }
  }

  lemma ReadIs(raw: seq<byte>)
    requires Create(raw).Some?
    ensures Readable(Create(raw).value)
  {
  }

  lemma ReadableGrows(issues: seq<Issue>, issues': seq<Issue>, ip: Ip)
    requires AllReadable(issues) && Readable(ip)
    requires issues' == issues ||
             (|issues'| == |issues| + 1 && issues'[..|issues|] == issues && issues'[|issues|].ip == ip)
    ensures AllReadable(issues')
  {
    hide Readable;
    forall k | 0 <= k < |issues'|
      ensures Readable(issues'[k].ip)
    {
      if k < |issues| {
        assert issues'[k] == issues'[..|issues|][k] == issues[k];
      }
    }
  }

  lemma ReceiptsStillFrom(receipts: seq<Receipt>, issues: seq<Issue>, issues': seq<Issue>)
    requires FromNetwork(receipts, issues) && |issues| <= |issues'| && issues'[..|issues|] == issues
    ensures FromNetwork(receipts, issues')
  {
    forall i | 0 <= i < |receipts|
      ensures WasSent(receipts[i].data, issues')
    {
      assert WasSent(receipts[i].data, issues);
      var k :| 0 <= k < |issues| && receipts[i].data == issues[k].data;
      assert issues'[k] == issues'[..|issues|][k];
    }
  }

  /** Packet k reaches the receiver: it is marked where it is acceptable, and delivered if it can be. */
  method Reach(ghost sender: Processor, receiver: Processor, ghost k: nat, data: seq<byte>, dst: seq<byte>)
      returns (ghost target: Option<Sa>)
    requires sender.Valid() && receiver.Valid() && Disjoint(sender, receiver) && Paired(sender, receiver)
    requires AllReadable(sender.issues) && k < |sender.issues| && data == sender.issues[k].data
    modifies receiver, receiver.sas, set sa | sa in receiver.sas :: sa.context,
             set sa | sa in receiver.sas :: sa.context.window
    ensures sender.Valid() && receiver.Valid() && receiver.checkedOut == old(receiver.checkedOut)
    ensures receiver.inboundCallback == old(receiver.inboundCallback)
    ensures |old(receiver.receipts)| <= |receiver.receipts| <= |old(receiver.receipts)| + 1
    ensures receiver.receipts[..|old(receiver.receipts)|] == old(receiver.receipts)
    ensures |receiver.receipts| > |old(receiver.receipts)| ==> receiver.receipts[|old(receiver.receipts)|].data == data
    ensures MarkedBy(sender.issues[k], target, old(receiver.Marks()), receiver.Marks())
    ensures Later(old(receiver.Marks()), old(receiver.Standings()), receiver.Marks(), receiver.Standings())
    ensures target.Some? ==> target.value in receiver.sas && target.value.spi == sender.issues[k].sa.spi
    ensures target.Some? && Deliverable(receiver, sender.issues[k], target.value) &&
            Acceptable(old(target.value.context.accepted), old(target.value.context.lastSeqno), sender.issues[k].seqno) ==>
              Got(receiver.receipts, target.value, sender.issues[k])
    ensures SoleTargets(sender.issues[k], dst, target, old(receiver.Standings()))
  {
    hide Processor.Valid, Processor.Accepts, Processor.Target, Processor.Marks, Processor.Standings, MarksAfter,
         AllReadable, Paired, Got, Acceptable, MarkedBy, Later, SoleTargets, Inner, Used;
    target := receiver.Target(data, dst);
    ghost var (i, receipts, marks, standings) := (sender.issues[k], receiver.receipts, receiver.Marks(), receiver.Standings());
    MarksOfArrival(sender, receiver, k, target);
    ReachSole(sender, receiver, k, dst);
    SameKeys(receiver);
    receiver.ProcessInbound(data, dst);
    if target.Some? && old(receiver.Accepts(target.value, data)) {
      ghost var sa := target.value;
      ghost var n := |Inner(sa.context.aead, data).value.0.packet|;
      assert receiver.Standings() == standings[sa := Standing(standings[sa].dst, Used(sa.lifetime, standings[sa].usage, n))];
    }
    LaterAfter(i, target, marks, receiver.Marks(), standings, receiver.Standings());
    if |receiver.receipts| > |receipts| {
      ReceiptGenuine(sender, receiver, |receipts|, k);
      assert Got(receiver.receipts, receiver.receipts[|receipts|].sa, i) by { GotOne(receiver.receipts, |receipts|, i); }
    }
  }

  method ReceiverStep(ghost sender: Processor, receiver: Processor, ghost k: nat, data: seq<byte>, dst: seq<byte>)
    requires sender.Valid() && receiver.Valid() && Disjoint(sender, receiver) && Paired(sender, receiver)
    requires FromNetwork(receiver.receipts, sender.issues) && AllReadable(sender.issues)
    requires k < |sender.sent| && data == sender.sent[k]
    modifies receiver, receiver.sas, set sa | sa in receiver.sas :: sa.context,
             set sa | sa in receiver.sas :: sa.context.window
    ensures sender.Valid() && receiver.Valid() && receiver.checkedOut == old(receiver.checkedOut)
    ensures FromNetwork(receiver.receipts, sender.issues) && receiver.inboundCallback == old(receiver.inboundCallback)
    ensures Later(old(receiver.Marks()), old(receiver.Standings()), receiver.Marks(), receiver.Standings())
    ensures Arrived(k, dst, sender.issues, receiver.Marks(), receiver.Standings())
    ensures DistinctOutbound(sender.sas) && old(Linked(sender, receiver)) ==> Linked(sender, receiver)
  {
    hide Processor.Valid, Processor.Standings, FromNetwork, AllReadable, Paired, Traced, Settled, Got, Deliverable,
         DistinctOutbound, MarkedBy, Later, SoleTargets, Past, Sole, Acceptable;
    SentIsIssued(sender, k);
    SameKeys(receiver);
    ghost var (receipts, marks, standings) := (receiver.receipts, receiver.Marks(), receiver.Standings());
    ghost var target := Reach(sender, receiver, k, data, dst);
    ReceiptsGrowFrom(receipts, receiver.receipts, sender.issues, k);
    ArrivalPasses(sender.issues[k], dst, target, marks, standings, receiver.Marks(), receiver.Standings());
    if DistinctOutbound(sender.sas) && old(Linked(sender, receiver)) {
      ArrivalKeeps(sender, receiver, k, target, marks, receiver.Marks(), receipts, receiver.receipts);
    }
  }

  lemma SameKeys(receiver: Processor)
    ensures receiver.Marks().Keys == receiver.Standings().Keys
    ensures forall sa <- receiver.sas :: sa in receiver.Standings() && receiver.Standings()[sa] == Standing(sa.dst, sa.Now())
  {
  }

  /** An SA alone at its SPI and destination is the target, unless it has expired. */
  ghost predicate SoleTargets(i: Issue, dst: seq<byte>, target: Option<Sa>, standings: map<Sa, Standing>) {
    i.seqno > 0 &&
    forall sb <- standings.Keys :: Sole(sb, i.sa.spi, dst, standings) && !standings[sb].usage.hard ==> target == Some(sb)
  }

  lemma ReachSole(sender: Processor, receiver: Processor, k: nat, dst: seq<byte>)
    requires sender.Valid() && k < |sender.issues|
    ensures SoleTargets(sender.issues[k], dst, receiver.Target(sender.issues[k].data, dst), receiver.Standings())
  {
    hide ReceiptOk, Sole, FromU32, Sealed, Processor.Target;
    var i := sender.issues[k];
    assert IssueOk(i) && SaOk(i.sa);
    SpiOnWire(i);
    forall sb <- receiver.Standings().Keys | Sole(sb, i.sa.spi, dst, receiver.Standings())
      ensures receiver.Target(i.data, dst) == if sb.hardExpired then None else Some(sb)
    {
      SoleIsTarget(receiver, sb, i.data, dst);
    }
  }

  lemma LaterAfter(i: Issue, target: Option<Sa>, marks: map<Sa, Mark>, marks': map<Sa, Mark>,
                   standings: map<Sa, Standing>, standings': map<Sa, Standing>)
    requires MarkedBy(i, target, marks, marks')
    requires standings' == standings || (target.Some? && target.value in standings && CountedUp(target.value, standings, standings'))
    ensures Later(marks, standings, marks', standings')
  {
  }

  /** One SA has counted a packet. */
  ghost predicate CountedUp(sa: Sa, standings: map<Sa, Standing>, standings': map<Sa, Standing>)
    requires sa in standings
  {
    exists n: nat :: standings' == standings[sa := Standing(standings[sa].dst, Used(sa.lifetime, standings[sa].usage, n))]
  }

  lemma GotOne(receipts: seq<Receipt>, j: nat, i: Issue)
    requires j < |receipts| && Genuine(receipts[j], i)
    ensures Got(receipts, receipts[j].sa, i)
  {
  }

  lemma SentIsIssued(sender: Processor, k: nat)
    requires sender.Valid() && k < |sender.sent|
    ensures k < |sender.issues| && sender.issues[k].data == sender.sent[k]
  {
  }

  lemma ReceiptsGrowFrom(receipts: seq<Receipt>, receipts': seq<Receipt>, issues: seq<Issue>, k: nat)
    requires FromNetwork(receipts, issues) && k < |issues|
    requires receipts' == receipts ||
             (|receipts'| == |receipts| + 1 && receipts'[..|receipts|] == receipts && receipts'[|receipts|].data == issues[k].data)
    ensures FromNetwork(receipts', issues)
  {
    forall i | 0 <= i < |receipts'|
      ensures WasSent(receipts'[i].data, issues)
    {
      if i < |receipts| {
        assert receipts'[i] == receipts'[..|receipts|][i] == receipts[i];
      }
    }
  }

  /** A delivery of the bytes of packet k is a delivery of packet k. */
  lemma ReceiptGenuine(sender: Processor, receiver: Processor, j: nat, k: nat)
    requires sender.Valid() && receiver.Valid() && Paired(sender, receiver) && AllReadable(sender.issues)
    requires j < |receiver.receipts| && k < |sender.issues| && receiver.receipts[j].data == sender.issues[k].data
    ensures Genuine(receiver.receipts[j], sender.issues[k])
  {
    hide Sealed, Opened, Unpad, Applies, FromU32, AeadOk, CipherShape, Readable, Genuine;
    var (r, i) := (receiver.receipts[j], sender.issues[k]);
    assert ReceiptOk(r) && IssueOk(i) && SaOk(i.sa) && SaOk(r.sa);
    SpiOnWire(i);
    assert Readable(i.ip);
    ReceiptInbound(receiver, j);
    DeliveredIsSent(r, i);
  }

  lemma Conclude(sender: Processor, receiver: Processor)
    requires sender.Valid() && receiver.Valid() && Paired(sender, receiver)
    requires FromNetwork(receiver.receipts, sender.issues) && AllReadable(sender.issues)
    ensures forall i, j :: 0 <= i < j < |sender.issues| && sender.issues[i].sa == sender.issues[j].sa ==>
              sender.issues[i].seqno != sender.issues[j].seqno
    ensures |receiver.delivered| == |receiver.receipts|
    ensures forall i :: 0 <= i < |receiver.receipts| ==>
              DeliveryOk(receiver.receipts[i], receiver.delivered[i], sender.issues)
    ensures forall i, j :: 0 <= i < j < |receiver.receipts| && receiver.receipts[i].sa == receiver.receipts[j].sa ==>
              receiver.receipts[i].data != receiver.receipts[j].data
    ensures DistinctInbound(receiver.sas) ==>
              forall i, j :: 0 <= i < j < |receiver.receipts| ==> receiver.receipts[i].data != receiver.receipts[j].data
  {
    hide Sealed, Opened, Unpad, Applies, FromU32, AeadOk, CipherShape, Readable, Genuine;
    forall i | 0 <= i < |receiver.receipts|
      ensures DeliveryOk(receiver.receipts[i], receiver.delivered[i], sender.issues)
    {
      var r := receiver.receipts[i];
      assert WasSent(r.data, sender.issues);
      var k :| 0 <= k < |sender.issues| && r.data == sender.issues[k].data;
      ReceiptGenuine(sender, receiver, i, k);
    }
    if DistinctInbound(receiver.sas) {
      forall i, j | 0 <= i < j < |receiver.receipts| && receiver.receipts[i].data == receiver.receipts[j].data
        ensures receiver.receipts[i].sa == receiver.receipts[j].sa
      {
        SameBytesSameSa(receiver, i, j);
      }
    }
  }

  /** The SPI in the bytes names the SA they were delivered through. */
  lemma SameBytesSameSa(receiver: Processor, i: nat, j: nat)
    requires receiver.Valid() && DistinctInbound(receiver.sas) && i < |receiver.receipts| && j < |receiver.receipts|
    requires receiver.receipts[i].data == receiver.receipts[j].data
    ensures receiver.receipts[i].sa == receiver.receipts[j].sa
  {
    hide Opened, Unpad, Applies, FromU32, IssueOk;
    assert ReceiptOk(receiver.receipts[i]) && ReceiptOk(receiver.receipts[j]);
    ReceiptInbound(receiver, i);
    ReceiptInbound(receiver, j);
  }

  /** Only inbound SAs deliver: an outbound one accepts no number. */
  lemma ReceiptInbound(receiver: Processor, i: nat)
    requires receiver.Valid() && i < |receiver.receipts|
    ensures receiver.receipts[i].sa.inbound
  {
    assert ReceiptOk(receiver.receipts[i]);
  }
}
