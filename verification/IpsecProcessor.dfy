/**
 * The ESP data path: outbound IP packets are matched to a policy and an SA,
 * sealed and sent; inbound ESP packets are matched to an SA, opened, checked
 * against the inbound policies and delivered.
 */
module IpsecProcessor {
  import opened Bytes
  import opened EspContext
  import opened IpPacket
  import opened EspPacket
  import opened IpsecSa
  import opened PolicyManager

  /** A delivery: through which SA, under which number, out of which bytes, on the strength of which policy. */
  datatype Receipt = Receipt(sa: Sa, seqno: nat, data: seq<byte>, ip: Ip, nextHeader: byte, policy: Policy)

  /** A packet sent: through which SA, under which number, for which IP packet, as which bytes. */
  datatype Issue = Issue(sa: Sa, seqno: nat, ip: Ip, nextHeader: byte, data: seq<byte>)

  ghost predicate SaOk(sa: Sa)
    reads sa.context, sa.context.window
  {
    sa.context.Valid() && sa.context.inbound == sa.inbound && sa.context.aead.blockSize > 0 && sa.spi < U32_LIMIT
  }

  ghost predicate ReceiptOk(r: Receipt)
    reads r.sa.context
  {
    var a := r.sa.context.aead;
    && a.blockSize > 0
    && |r.data| >= ESP_HEADER && FromU32(r.data[0..4]) == r.sa.spi
    && r.seqno in r.sa.context.accepted
    && Opened(a, r.data).Some? && Opened(a, r.data).value.0 == r.seqno
    && Unpad(Opened(a, r.data).value.1) == Some((r.ip, r.nextHeader))
    && (r.nextHeader == IPPROTO_IPIP || r.nextHeader == IPPROTO_IPV6)
    && Applies(r.policy, r.ip, true, r.sa.reqid)
  }

  ghost predicate IssueOk(i: Issue)
    reads i.sa.context
  {
    var a := i.sa.context.aead;
    && a.blockSize > 0 && a.generateIv.Some?
    && 0 < i.seqno <= i.sa.context.lastSeqno && !i.sa.context.inbound && i.seqno < U32_LIMIT
    && i.nextHeader == NextHeaderFor(i.ip)
    && Sealed(a, i.sa.spi, i.seqno, i.ip.packet, i.nextHeader) == Some(i.data)
  }

  /** The numbers an SA has accepted, and the highest. */
  datatype Mark = Mark(accepted: set<nat>, last: nat)

  /** The number of a packet is marked if it was acceptable and the packet's seal held, and no other. */
  ghost function MarkAfter(a: Aead, inbound: bool, m: Mark, data: seq<byte>): Mark {
    if a.blockSize == 0 then m else
    match Outcome(a, inbound, m.accepted, m.last, data).marked
    case None => m
    case Some(s) => Mark(m.accepted + {s}, Max(s, m.last))
  }

  /** Only the SA a packet is for marks anything. */
  ghost function MarksAfter(marks: map<Sa, Mark>, target: Option<Sa>, data: seq<byte>): map<Sa, Mark> {
    if target.None? || target.value !in marks then marks else
    var sa := target.value;
    marks[sa := MarkAfter(sa.context.aead, sa.inbound, marks[sa], data)]
  }

  datatype Standing = Standing(dst: seq<byte>, usage: Usage)

  class Processor {
    const policies: Manager
    const sas: seq<Sa>
    /** SAs some job has checked out and not checked in again. */
    var checkedOut: multiset<Sa>
    /** The callbacks registered, if any, by name. */
    var inboundCallback: Option<nat>
    var outboundCallback: Option<nat>
    /** What the callbacks were handed. */
    var delivered: seq<Ip>
    var sent: seq<seq<byte>>
    ghost var receipts: seq<Receipt>
    ghost var issues: seq<Issue>

    ghost predicate Valid()
      reads this`delivered, this`receipts, this`sent, this`issues, policies, set sa | sa in sas :: sa.context, set sa | sa in sas :: sa.context.window
    {
      && policies.Valid()
      && (forall sa <- sas :: SaOk(sa))
      && (forall sa <- sas, sb <- sas :: sa != sb ==> sa.context != sb.context && sa.context.window != sb.context.window)
      && DeliveriesOk()
      && EmissionsOk()
    }

    /** Every delivery is accounted for, and no SA delivers one number twice. */
    ghost predicate DeliveriesOk()
      reads this`delivered, this`receipts, set sa | sa in sas :: sa.context
    {
      && |delivered| == |receipts|
      && (forall i :: 0 <= i < |receipts| ==> receipts[i].sa in sas && ReceiptOk(receipts[i]) && delivered[i] == receipts[i].ip)
      && (forall i, j :: 0 <= i < j < |receipts| && receipts[i].sa == receipts[j].sa ==> receipts[i].seqno != receipts[j].seqno)
    }

    /** Every packet sent is accounted for, and no SA uses one number twice. */
    ghost predicate EmissionsOk()
      reads this`sent, this`issues, set sa | sa in sas :: sa.context
    {
      && |sent| == |issues|
      && (forall i :: 0 <= i < |issues| ==> issues[i].sa in sas && IssueOk(issues[i]) && sent[i] == issues[i].data)
      && (forall i, j :: 0 <= i < j < |issues| && issues[i].sa == issues[j].sa ==> issues[i].seqno != issues[j].seqno)
    }

    constructor (policies: Manager, sas: seq<Sa>)
      requires policies.Valid() && (forall sa <- sas :: SaOk(sa))
      requires forall sa <- sas, sb <- sas :: sa != sb ==> sa.context != sb.context && sa.context.window != sb.context.window
      ensures Valid() && this.policies == policies && this.sas == sas
      ensures checkedOut == multiset{} && receipts == [] && issues == [] && inboundCallback == None && outboundCallback == None
    {
      this.policies, this.sas := policies, sas;
      checkedOut, delivered, sent, receipts, issues := multiset{}, [], [], [], [];
      inboundCallback, outboundCallback := None, None;
    }

    /** A callback replaces the one before it. */
    method RegisterInbound(cb: nat)
      requires Valid()
      modifies this`inboundCallback
      ensures Valid() && inboundCallback == Some(cb)
    {
      hide Valid;
      inboundCallback := Some(cb);
    }

    /** Only the callback registered can be taken back. */
    method UnregisterInbound(cb: nat)
      requires Valid()
      modifies this`inboundCallback
      ensures Valid() && inboundCallback == if old(inboundCallback) == Some(cb) then None else old(inboundCallback)
    {
      hide Valid;
      if inboundCallback == Some(cb) {
        inboundCallback := None;
      }
    }

    method RegisterOutbound(cb: nat)
      requires Valid()
      modifies this`outboundCallback
      ensures Valid() && outboundCallback == Some(cb)
    {
      hide Valid;
      outboundCallback := Some(cb);
    }

    method UnregisterOutbound(cb: nat)
      requires Valid()
      modifies this`outboundCallback
      ensures Valid() && outboundCallback == if old(outboundCallback) == Some(cb) then None else old(outboundCallback)
    {
      hide Valid;
      if outboundCallback == Some(cb) {
        outboundCallback := None;
      }
    }

    /** The first SA from position i on that a data path search finds. */
    ghost function FirstBySpi(i: nat, spi: nat, dst: seq<byte>): (found: Option<Sa>)
      requires i <= |sas|
      reads sas
      ensures found.Some? ==>
                && found.value in sas && found.value.MatchBySpiDst(spi, dst)
                && found.value.spi == spi && found.value.dst == dst && !found.value.hardExpired
      ensures found.None? ==>
                forall k :: i <= k < |sas| ==>
                  !sas[k].MatchBySpiDst(spi, dst) && (sas[k].spi == spi && sas[k].dst == dst ==> sas[k].hardExpired)
      decreases |sas| - i
    {
      if i == |sas| then None else if sas[i].MatchBySpiDst(spi, dst) then Some(sas[i]) else FirstBySpi(i + 1, spi, dst)
    }

    ghost function FirstByReqid(i: nat, reqid: nat, inbound: bool): (found: Option<Sa>)
      requires i <= |sas|
      reads sas
      ensures found.Some? ==>
                && found.value in sas && found.value.MatchByReqid(reqid, inbound)
                && found.value.reqid == reqid && found.value.inbound == inbound && !found.value.hardExpired
      ensures found.None? ==>
                forall k :: i <= k < |sas| ==>
                  !sas[k].MatchByReqid(reqid, inbound) && (sas[k].reqid == reqid && sas[k].inbound == inbound ==> sas[k].hardExpired)
      decreases |sas| - i
    {
      if i == |sas| then None else if sas[i].MatchByReqid(reqid, inbound) then Some(sas[i]) else FirstByReqid(i + 1, reqid, inbound)
    }

    /** The first SA with the SPI and destination that has not expired is found. */
    lemma FirstOfSpi(i: nat, spi: nat, dst: seq<byte>, k: nat)
      requires i <= k < |sas| && sas[k].spi == spi && sas[k].dst == dst && !sas[k].hardExpired
      requires forall j :: i <= j < k ==> !(sas[j].spi == spi && sas[j].dst == dst && !sas[j].hardExpired)
      ensures FirstBySpi(i, spi, dst) == Some(sas[k])
      decreases |sas| - i
    {
      if i < k {
        FirstOfSpi(i + 1, spi, dst, k);
      }
    }

    /** The first SA with the request id and direction that has not expired is found. */
    lemma FirstOfReqid(i: nat, reqid: nat, inbound: bool, k: nat)
      requires i <= k < |sas| && sas[k].reqid == reqid && sas[k].inbound == inbound && !sas[k].hardExpired
      requires forall j :: i <= j < k ==> !(sas[j].reqid == reqid && sas[j].inbound == inbound && !sas[j].hardExpired)
      ensures FirstByReqid(i, reqid, inbound) == Some(sas[k])
      decreases |sas| - i
    {
      if i < k {
        FirstOfReqid(i + 1, reqid, inbound, k);
      }
    }

    method CheckoutBySpi(spi: nat, dst: seq<byte>) returns (sa: Option<Sa>)
      modifies this`checkedOut
      ensures sa == FirstBySpi(0, spi, dst)
      ensures sa.Some? ==> sa.value in sas && sa.value.spi == spi && sa.value.dst == dst && !sa.value.hardExpired
      ensures checkedOut == old(checkedOut) + if sa.Some? then multiset{sa.value} else multiset{}
    {
      var i := 0;
      while i < |sas| && !sas[i].MatchBySpiDst(spi, dst)
        invariant i <= |sas| && FirstBySpi(0, spi, dst) == FirstBySpi(i, spi, dst)
      {
        i := i + 1;
      }
      if i == |sas| {
        return None;
      }
      checkedOut := checkedOut + multiset{sas[i]};
      return Some(sas[i]);
    }

    method CheckoutByReqid(reqid: nat, inbound: bool) returns (sa: Option<Sa>)
      modifies this`checkedOut
      ensures sa == FirstByReqid(0, reqid, inbound)
      ensures sa.Some? ==> sa.value in sas && sa.value.reqid == reqid && sa.value.inbound == inbound && !sa.value.hardExpired
      ensures checkedOut == old(checkedOut) + if sa.Some? then multiset{sa.value} else multiset{}
    {
      var i := 0;
      while i < |sas| && !sas[i].MatchByReqid(reqid, inbound)
        invariant i <= |sas| && FirstByReqid(0, reqid, inbound) == FirstByReqid(i, reqid, inbound)
      {
        i := i + 1;
      }
      if i == |sas| {
        return None;
      }
      checkedOut := checkedOut + multiset{sas[i]};
      return Some(sas[i]);
    }

    method Checkin(sa: Sa)
      modifies this`checkedOut
      ensures checkedOut == old(checkedOut) - multiset{sa}
    {
      checkedOut := checkedOut - multiset{sa};
    }

    /** No SA forgot a number it accepted or used. */
    twostate predicate Grown()
      reads set sa | sa in sas :: sa.context
    {
      forall sa <- sas ::
        old(sa.context.accepted) <= sa.context.accepted && old(sa.context.lastSeqno) <= sa.context.lastSeqno
    }

    twostate lemma LogsKept()
      requires old(DeliveriesOk() && EmissionsOk()) && Grown()
      requires delivered == old(delivered) && receipts == old(receipts) && sent == old(sent) && issues == old(issues)
      ensures DeliveriesOk() && EmissionsOk()
    {
      hide Opened, Unpad, Applies, Sealed, FromU32;
      forall i | 0 <= i < |receipts|
        ensures receipts[i].sa in sas && ReceiptOk(receipts[i])
      {
        assert old(ReceiptOk(receipts[i]));
      }
      forall i | 0 <= i < |issues|
        ensures issues[i].sa in sas && IssueOk(issues[i])
      {
        assert old(IssueOk(issues[i]));
      }
    }

    /** The SA would open the packet: number acceptable, seal intact, an IP packet inside. */
    ghost predicate Accepts(sa: Sa, data: seq<byte>)
      reads sa.context
    {
      sa.context.aead.blockSize > 0 &&
      Outcome(sa.context.aead, sa.context.inbound, sa.context.accepted, sa.context.lastSeqno, data).status == Success
    }

    /** The inbound SA a received packet is for. */
    ghost function Target(data: seq<byte>, dst: seq<byte>): (target: Option<Sa>)
      reads sas
      ensures target.Some? ==> target.value in sas && target.value.inbound &&
                               |data| >= ESP_HEADER && FromU32(data[0..4]) == target.value.spi
    {
      if |data| < ESP_HEADER then None else
      var found := FirstBySpi(0, FromU32(data[0..4]), dst);
      if found.Some? && found.value.inbound then found else None
    }

    /** A policy lets the inner packet in. */
    ghost predicate LetIn(ip: Ip, nextHeader: byte, reqid: nat)
      reads policies
    {
      && (nextHeader == IPPROTO_IPIP || nextHeader == IPPROTO_IPV6)
      && exists j :: 0 <= j < |policies.policies| && Applies(policies.policies[j].policy, ip, true, reqid)
    }

    /** In fields: a tunnelled packet, and an inbound policy of the request id whose selectors cover its two ends. */
    lemma LetInIff(ip: Ip, nextHeader: byte, reqid: nat)
      ensures LetIn(ip, nextHeader, reqid) <==>
              && nextHeader in {4, 41}
              && exists j :: 0 <= j < |policies.policies| &&
                   var p := policies.policies[j].policy;
                   p.direction == In && Covers(p, ip) && (reqid == 0 || p.reqid == reqid)
    {
      hide Applies, Covers;
      forall j | 0 <= j < |policies.policies|
        ensures var p := policies.policies[j].policy;
                Applies(p, ip, true, reqid) <==> p.direction == In && Covers(p, ip) && (reqid == 0 || p.reqid == reqid)
      {
        AppliesIff(policies.policies[j].policy, ip, true, reqid);
      }
    }

    ghost predicate NotDelivered(sa: Sa, seqno: nat)
      reads this`receipts
    {
      forall i :: 0 <= i < |receipts| && receipts[i].sa == sa ==> receipts[i].seqno != seqno
    }

    /** What every SA has marked as received. */
    ghost function Marks(): map<Sa, Mark>
      reads set sa | sa in sas :: sa.context
    {
      map sa | sa in sas :: Mark(sa.context.accepted, sa.context.lastSeqno)
    }

    /** Working on one SA leaves the others as they were. */
    twostate lemma OneWorked(sa: Sa)
      requires old(Valid()) && sa in sas && SaOk(sa) && policies.Valid()
      requires delivered == old(delivered) && receipts == old(receipts) && sent == old(sent) && issues == old(issues)
      requires forall s <- sas :: s != sa ==> unchanged(s.context) && unchanged(s.context.window)
      requires old(sa.context.accepted) <= sa.context.accepted && old(sa.context.lastSeqno) <= sa.context.lastSeqno
      ensures Valid()
    {
      hide Opened, Unpad, Applies, Sealed, Split, FromU32, Outcome, DeliveriesOk, EmissionsOk;
      forall s <- sas
        ensures SaOk(s)
        ensures old(s.context.accepted) <= s.context.accepted && old(s.context.lastSeqno) <= s.context.lastSeqno
      {
        if s != sa {
          assert old(SaOk(s));
        }
      }
      LogsKept();
    }

    lemma OneMarked(sa: Sa, was: map<Sa, Mark>, data: seq<byte>)
      requires sa in sas && was.Keys == (set s | s in sas)
      requires forall s <- sas :: s != sa ==> was[s] == Mark(s.context.accepted, s.context.lastSeqno)
      requires MarkAfter(sa.context.aead, sa.inbound, was[sa], data) == Mark(sa.context.accepted, sa.context.lastSeqno)
      ensures Marks() == MarksAfter(was, Some(sa), data)
    {
      hide MarkAfter;
    }

    /** Removes the seal of a packet under one SA; the other SAs are not involved. */
    method Unseal(packet: Packet, sa: Sa) returns (ok: bool)
      requires Valid() && sa in sas && sa.inbound
      modifies packet, sa.context, sa.context.window
      ensures Valid() && packet.data == old(packet.data)
      ensures ok == old(Accepts(sa, packet.data))
      ensures var m := MarkAfter(sa.context.aead, true, Mark(old(sa.context.accepted), old(sa.context.lastSeqno)), packet.data);
              sa.context.accepted == m.accepted && sa.context.lastSeqno == m.last
      ensures ok ==> packet.payload.Some? && Opened(sa.context.aead, packet.data).Some?
      ensures ok ==> Inner(sa.context.aead, packet.data) == Some((packet.payload.value, packet.nextHeader))
      ensures ok ==> var (seqno, plain) := Opened(sa.context.aead, packet.data).value;
                     && Unpad(plain) == Some((packet.payload.value, packet.nextHeader))
                     && seqno in sa.context.accepted && NotDelivered(sa, seqno)
    {
      hide Opened, Unpad, Applies, Sealed, Split, FromU32, Outcome, EmissionsOk;
      assert SaOk(sa);
      assert forall i :: 0 <= i < |receipts| ==> ReceiptOk(receipts[i]);
      var status := packet.Decrypt(sa.context);
      ok := status == Success;
      OutcomeOpened(sa.context.aead, old(sa.context.accepted), old(sa.context.lastSeqno), packet.data);
      OneWorked(sa);
    }

    /** The same for all SAs at once. */
    method UnsealOne(packet: Packet, sa: Sa) returns (ok: bool)
      requires Valid() && sa in sas && sa.inbound
      modifies packet, sa.context, sa.context.window
      ensures Valid() && packet.data == old(packet.data)
      ensures ok == old(Accepts(sa, packet.data))
      ensures Marks() == MarksAfter(old(Marks()), Some(sa), packet.data)
      ensures ok ==> packet.payload.Some? && Opened(sa.context.aead, packet.data).Some?
      ensures ok ==> Inner(sa.context.aead, packet.data) == Some((packet.payload.value, packet.nextHeader))
      ensures ok ==> var (seqno, plain) := Opened(sa.context.aead, packet.data).value;
                     && Unpad(plain) == Some((packet.payload.value, packet.nextHeader))
                     && seqno in sa.context.accepted && NotDelivered(sa, seqno)
    {
      hide Opened, Unpad, Inner, Valid, Accepts, MarkAfter, MarksAfter, NotDelivered;
      assert forall s <- sas :: s != sa ==> s.context != sa.context by { ValidApart(); }
      ghost var was := Marks();
      ok := Unseal(packet, sa);
      OneMarked(sa, was, packet.data);
    }

    /** Where every SA ends, and what it has counted. */
    ghost function Standings(): map<Sa, Standing>
      reads sas
    {
      map sa | sa in sas :: Standing(sa.dst, sa.Now())
    }

    twostate lemma OneCounted(sa: Sa)
      requires sa in sas && forall s <- sas :: s != sa ==> unchanged(s)
      ensures Standings() == old(Standings())[sa := Standing(sa.dst, sa.Now())]
    {
    }

    lemma SameStanding(sa: Sa)
      requires sa in sas
      ensures Standings() == Standings()[sa := Standing(sa.dst, sa.Now())]
    {
    }

    /** An SA counts a packet. */
    method Count(sa: Sa, n: nat)
      requires Valid() && sa in sas
      modifies sa
      ensures Valid() && sa.Now() == Used(sa.lifetime, old(sa.Now()), n)
      ensures Standings() == old(Standings())[sa := Standing(old(sa.dst), sa.Now())]
    {
      hide Valid, Standings;
      sa.UpdateUsestats(n);
      OneCounted(sa);
    }

    /** Opens a packet under one SA, which counts it. */
    method Open(packet: Packet, sa: Sa) returns (ok: bool)
      requires Valid() && sa in sas && sa.inbound
      modifies packet, sa, sa.context, sa.context.window
      ensures Valid() && packet.data == old(packet.data)
      ensures ok == old(Accepts(sa, packet.data))
      ensures Marks() == MarksAfter(old(Marks()), Some(sa), packet.data)
      ensures ok ==> packet.payload.Some? && Opened(sa.context.aead, packet.data).Some?
      ensures ok ==> Inner(sa.context.aead, packet.data) == Some((packet.payload.value, packet.nextHeader))
      ensures sa.Now() == if ok then Used(sa.lifetime, old(sa.Now()), |packet.payload.value.packet|) else old(sa.Now())
      ensures Standings() == old(Standings())[sa := Standing(old(sa.dst), sa.Now())] && (!ok ==> Standings() == old(Standings()))
      ensures ok ==> var (seqno, plain) := Opened(sa.context.aead, packet.data).value;
                     && Unpad(plain) == Some((packet.payload.value, packet.nextHeader))
                     && seqno in sa.context.accepted && NotDelivered(sa, seqno)
    {
      hide Opened, Unpad, Inner, Valid, Accepts, Used, Marks, MarksAfter, NotDelivered, Standings;
      ok := UnsealOne(packet, sa);
      if ok {
        Count(sa, |packet.payload.value.packet|);
      } else {
        SameStanding(sa);
      }
    }

    /** A received packet that SA sa opened was counted, and is delivered if a policy lets it in. */
    twostate predicate HandedOn(sa: Sa, data: seq<byte>)
      reads this, sa
    {
      match Inner(sa.context.aead, data)
      case None => false
      case Some((ip, nextHeader)) =>
        && sa.Now() == Used(sa.lifetime, old(sa.Now()), |ip.packet|)
        && if inboundCallback.Some? && old(LetIn(ip, nextHeader, sa.reqid)) then
             && |receipts| == |old(receipts)| + 1 && receipts[..|old(receipts)|] == old(receipts)
             && var r := receipts[|old(receipts)|]; r.sa == sa && r.data == data && r.ip == ip
           else receipts == old(receipts)
    }

    /** Received packets are delivered exactly when their SA opens them and a policy lets them in. */
    method ProcessInbound(data: seq<byte>, dst: seq<byte>)
      requires Valid()
      modifies this`checkedOut, this`delivered, this`receipts, sas,
               set sa | sa in sas :: sa.context, set sa | sa in sas :: sa.context.window
      ensures Valid() && checkedOut == old(checkedOut)
      ensures old(Target(data, dst).None? || !Accepts(Target(data, dst).value, data)) ==> receipts == old(receipts)
      ensures old(Target(data, dst).Some? && Accepts(Target(data, dst).value, data)) ==>
                HandedOn(old(Target(data, dst).value), data)
      ensures |old(receipts)| <= |receipts| <= |old(receipts)| + 1 && receipts[..|old(receipts)|] == old(receipts)
      ensures |receipts| > |old(receipts)| ==> receipts[|old(receipts)|].data == data
      ensures old(Target(data, dst).None? || !Accepts(Target(data, dst).value, data)) ==> Standings() == old(Standings())
      ensures old(Target(data, dst).Some?) ==>
                var sa := old(Target(data, dst).value);
                Standings() == old(Standings())[sa := Standing(old(sa.dst), sa.Now())]
      ensures Marks() == MarksAfter(old(Marks()), old(Target(data, dst)), data)
    {
      hide Inner, Valid, Accepts, LetIn, FromU32, Used, Target, Marks, MarkAfter, Standings;
      var packet := new Packet.FromPacket(data);
      var sa := CheckoutTarget(packet, dst);
      if sa.Some? {
        OpenAndDeliver(packet, sa.value);
      }
    }

    lemma ValidApart()
      requires Valid()
      ensures forall sa <- sas, sb <- sas :: sa != sb ==> sa.context != sb.context
    {
    }

    /** Leaves the inbound SA a packet is for checked out, if there is one. */
    method CheckoutTarget(packet: Packet, dst: seq<byte>) returns (sa: Option<Sa>)
      modifies this`checkedOut
      ensures sa == Target(packet.data, dst)
      ensures checkedOut == old(checkedOut) + if sa.Some? then multiset{sa.value} else multiset{}
    {
      hide FromU32, FirstBySpi;
      var spi := packet.ParseHeader();
      if spi.None? {
        return None;
      }
      sa := CheckoutBySpi(spi.value, dst);
      if sa.Some? && !sa.value.inbound {
        Checkin(sa.value);
        return None;
      }
    }

    /** What follows once an inbound SA is checked out: it is checked in again whatever happens. */
    method OpenAndDeliver(packet: Packet, sa: Sa)
      requires Valid() && sa in sas && sa.inbound
      requires |packet.data| >= ESP_HEADER && FromU32(packet.data[0..4]) == sa.spi
      modifies packet, this`checkedOut, this`delivered, this`receipts, sa, sa.context, sa.context.window
      ensures Valid() && checkedOut == old(checkedOut) - multiset{sa}
      ensures !old(Accepts(sa, packet.data)) ==> receipts == old(receipts)
      ensures old(Accepts(sa, packet.data)) ==> HandedOn(sa, old(packet.data))
      ensures |old(receipts)| <= |receipts| <= |old(receipts)| + 1 && receipts[..|old(receipts)|] == old(receipts)
      ensures |receipts| > |old(receipts)| ==> receipts[|old(receipts)|].data == old(packet.data)
      ensures Standings() == old(Standings())[sa := Standing(old(sa.dst), sa.Now())]
      ensures !old(Accepts(sa, packet.data)) ==> sa.Now() == old(sa.Now()) && Standings() == old(Standings())
      ensures Marks() == MarksAfter(old(Marks()), Some(sa), old(packet.data))
    {
      hide Opened, Unpad, Inner, Valid, NotDelivered, Accepts, LetIn, FromU32, Used, Marks, MarksAfter, Standings;
      var ok := Open(packet, sa);
      Checkin(sa);
      if ok {
        DeliverInbound(packet, sa);
      }
    }

    /** Hands a packet to the inbound callback if its kind and the inbound policies allow. */
    method DeliverInbound(packet: Packet, sa: Sa)
      requires |packet.data| >= ESP_HEADER && FromU32(packet.data[0..4]) == sa.spi
      requires Valid() && sa in sas && packet.payload.Some? && Opened(sa.context.aead, packet.data).Some?
      requires var (seqno, plain) := Opened(sa.context.aead, packet.data).value;
               && Unpad(plain) == Some((packet.payload.value, packet.nextHeader))
               && seqno in sa.context.accepted && NotDelivered(sa, seqno)
      modifies this`delivered, this`receipts
      ensures Valid()
      ensures if inboundCallback.Some? && LetIn(packet.payload.value, packet.nextHeader, sa.reqid) then
                && |receipts| == |old(receipts)| + 1 && receipts[..|old(receipts)|] == old(receipts)
                && var r := receipts[|old(receipts)|]; r.sa == sa && r.data == packet.data && r.ip == packet.payload.value
              else receipts == old(receipts)
    {
      hide Opened, Unpad, Applies, Sealed, Ordered, Before, IssueOk, FromU32, EmissionsOk, Manager.Best;
      var ip := packet.payload.value;
      if packet.nextHeader == IPPROTO_IPIP || packet.nextHeader == IPPROTO_IPV6 {
        var policy := policies.FindByPacket(ip, true, sa.reqid);
        if policy.Some? && inboundCallback.Some? {
          ghost var seqno := Opened(sa.context.aead, packet.data).value.0;
          ghost var r := Receipt(sa, seqno, packet.data, ip, packet.nextHeader, policy.value);
          assert SaOk(sa);
          assert ReceiptOk(r);
          delivered := delivered + [ip];
          receipts := receipts + [r];
        }
      }
    }

    ghost predicate NotIssued(sa: Sa, seqno: nat)
      reads this`issues
    {
      forall i :: 0 <= i < |issues| && issues[i].sa == sa ==> issues[i].seqno != seqno
    }

    /** The SA has a number left and its cipher produces the packet. */
    ghost predicate Seals(sa: Sa, ip: Ip)
      reads sa.context
    {
      && sa.context.lastSeqno < UINT32_MAX && sa.context.aead.blockSize > 0 && sa.context.aead.generateIv.Some?
      && Sealed(sa.context.aead, sa.spi, sa.context.lastSeqno + 1, ip.packet, NextHeaderFor(ip)).Some?
    }

    /** Seals a packet under one SA with that SA's next number. */
    method Seal(packet: Packet, sa: Sa) returns (ok: bool)
      requires Valid() && sa in sas && !sa.inbound
      requires packet.payload.Some? && packet.nextHeader == NextHeaderFor(packet.payload.value)
      modifies packet, sa, sa.context`lastSeqno
      ensures Valid() && packet.payload == old(packet.payload) && packet.nextHeader == old(packet.nextHeader)
      ensures ok == old(Seals(sa, packet.payload.value))
      ensures sa.Now() == if ok then Used(sa.lifetime, old(sa.Now()), |packet.payload.value.packet|) else old(sa.Now())
      ensures ok ==> IssueOk(Issue(sa, sa.context.lastSeqno, packet.payload.value, packet.nextHeader, packet.data))
      ensures ok ==> NotIssued(sa, sa.context.lastSeqno)
    {
      hide Opened, Unpad, Applies, Sealed, DeliveriesOk;
      assert SaOk(sa);
      assert forall i :: 0 <= i < |issues| ==> IssueOk(issues[i]);
      var status := packet.Encrypt(sa.context, sa.spi);
      ok := status == Success;
      if ok {
        sa.UpdateUsestats(|packet.payload.value.packet|);
      }
      forall s <- sas
        ensures SaOk(s)
        ensures old(s.context.accepted) <= s.context.accepted && old(s.context.lastSeqno) <= s.context.lastSeqno
      {
        if s != sa {
          assert s.context != sa.context && s.context.window != sa.context.window;
          assert old(SaOk(s));
        }
      }
      LogsKept();
    }

    /** Hands a sealed packet to the outbound callback. */
    method SendOutbound(packet: Packet, ghost sa: Sa)
      requires Valid() && sa in sas && packet.payload.Some? && NotIssued(sa, sa.context.lastSeqno)
      requires IssueOk(Issue(sa, sa.context.lastSeqno, packet.payload.value, packet.nextHeader, packet.data))
      modifies this`sent, this`issues
      ensures Valid()
      ensures if outboundCallback.Some? then
                && issues == old(issues) + [Issue(sa, sa.context.lastSeqno, packet.payload.value, packet.nextHeader, packet.data)]
                && sent == old(sent) + [packet.data]
              else issues == old(issues) && sent == old(sent)
    {
      hide Opened, Unpad, Applies, Sealed, Ordered, Before, ReceiptOk, DeliveriesOk;
      if outboundCallback.Some? {
        sent := sent + [packet.data];
        issues := issues + [Issue(sa, sa.context.lastSeqno, packet.payload.value, packet.nextHeader, packet.data)];
      }
    }

    /** An outbound packet leaves through the first SA of the request id its policy names. */
    method ProcessOutbound(ip: Ip) returns (ghost policy: Option<Policy>)
      requires Valid()
      modifies this`checkedOut, this`sent, this`issues, sas, set sa | sa in sas :: sa.context
      ensures Valid() && checkedOut == old(checkedOut)
      ensures policy.None? <==> forall j :: 0 <= j < |policies.policies| ==> !Applies(policies.policies[j].policy, ip, false, 0)
      ensures policy.Some? ==> policies.Best(policy.value, ip, false, 0)
      ensures policy.None? ==> issues == old(issues)
      ensures policy.Some? ==>
                var sa := old(FirstByReqid(0, policy.value.reqid, false));
                if sa.Some? && old(Seals(sa.value, ip)) && outboundCallback.Some? then
                  && |issues| == |old(issues)| + 1 && issues[..|old(issues)|] == old(issues)
                  && issues[|old(issues)|].sa == sa.value && issues[|old(issues)|].ip == ip
                  && issues[|old(issues)|].seqno == sa.value.context.lastSeqno
                else issues == old(issues)
      ensures |issues| > |old(issues)| ==>
                && policy.Some? && |issues| == |old(issues)| + 1
                && issues[|old(issues)|].nextHeader == (if ip.version == 4 then 4 else 41)
                && var sa := issues[|old(issues)|].sa;
                   sa in sas && sa.reqid == policy.value.reqid && !sa.inbound && !old(sa.hardExpired)
      ensures policy.Some? ==>
                var sa := old(FirstByReqid(0, policy.value.reqid, false));
                sa.Some? && old(Seals(sa.value, ip)) ==>
                  sa.value.Now() == Used(sa.value.lifetime, old(sa.value.Now()), |ip.packet|)
    {
      hide Valid, Applies, Seals, IssueOk, NotIssued, Used, Manager.Best;
      assert policies.Valid() by { ValidPolicies(); }
      var found := policies.FindByPacket(ip, false, 0);
      policy := found;
      if found.None? {
        return;
      }
      var out := CheckoutByReqid(found.value.reqid, false);
      if out.None? {
        return;
      }
      SealAndSend(ip, out.value);
    }

    /** What follows once an outbound SA is checked out: it is checked in again whatever happens. */
    method SealAndSend(ip: Ip, sa: Sa)
      requires Valid() && sa in sas && !sa.inbound
      modifies this`checkedOut, this`sent, this`issues, sa, sa.context`lastSeqno
      ensures Valid() && checkedOut == old(checkedOut) - multiset{sa}
      ensures if old(Seals(sa, ip)) && outboundCallback.Some? then
                && |issues| == |old(issues)| + 1 && issues[..|old(issues)|] == old(issues)
                && issues[|old(issues)|].sa == sa && issues[|old(issues)|].ip == ip
                && issues[|old(issues)|].seqno == sa.context.lastSeqno
                && issues[|old(issues)|].nextHeader == if ip.version == 4 then 4 else 41
              else issues == old(issues)
      ensures sa.Now() == if old(Seals(sa, ip)) then Used(sa.lifetime, old(sa.Now()), |ip.packet|) else old(sa.Now())
    {
      hide Valid, Seals, IssueOk, NotIssued, Used;
      var packet := new Packet.FromPayload(Some(ip));
      var ok := Seal(packet, sa);
      Checkin(sa);
      if ok {
        SendOutbound(packet, sa);
      }
    }

    lemma ValidPolicies()
      requires Valid()
      ensures policies.Valid()
    {
    }
  }

  /** The next header value that announces an inner IP packet. */
  function NextHeaderFor(ip: Ip): byte {
    if ip.version == 4 then IPPROTO_IPIP else IPPROTO_IPV6
  }

  /** The packet and next header inside an ESP packet that opens. */
  function Inner(a: Aead, data: seq<byte>): Option<(Ip, byte)> {
    if a.blockSize == 0 then None else
    match Opened(a, data)
    case None => None
    case Some((_, plain)) => Unpad(plain)
  }

  /** What a successful outcome says about the packet and its number. */
  lemma OutcomeOpened(a: Aead, accepted: set<nat>, last: nat, data: seq<byte>)
    requires a.blockSize > 0
    requires forall s :: s in accepted ==> s <= last
    ensures var v := Outcome(a, true, accepted, last, data);
            v.status == Success ==>
              Opened(a, data).Some? && v.marked == Some(Opened(a, data).value.0) && Opened(a, data).value.0 !in accepted
  {
    hide Outcome, Opened, Unpad;
    MarkedIff(a, true, accepted, last, data);
  }
}
