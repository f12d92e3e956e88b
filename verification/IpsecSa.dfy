/** An IPsec SA: its usage counters, its expiry events and the ways it is looked up. */
module IpsecSa {
  import opened Bytes
  import opened EspContext

  const U64_LIMIT: nat := 0x1_0000_0000_0000_0000

  /** Limits; 0 means none. */
  datatype Limit = Limit(life: nat, rekey: nat)
  datatype Lifetime = Lifetime(packets: Limit, bytes: Limit, time: Limit)

  datatype Event = SoftExpired | HardExpired

  /** What use and timers change about an SA. */
  datatype Usage = Usage(packets: nat, bytes: nat, soft: bool, hard: bool, events: seq<Event>)

  const UNUSED: Usage := Usage(0, 0, false, false, [])

  /** An expiry: hard ones count once, soft ones once and only before a hard one. */
  function Expired(u: Usage, hard: bool): Usage {
    if hard then
      if u.hard then u else u.(hard := true, events := u.events + [HardExpired])
    else
      if u.hard || u.soft then u else u.(soft := true, events := u.events + [SoftExpired])
  }

  predicate Reached(limit: nat, used: nat) {
    limit != 0 && used >= limit
  }

  /** The counters after a packet, and the expiry it causes. */
  function Used(l: Lifetime, u: Usage, n: nat): Usage {
    var v := u.(packets := (u.packets + 1) % U64_LIMIT, bytes := (u.bytes + n) % U64_LIMIT);
    if Reached(l.packets.life, v.packets) || Reached(l.bytes.life, v.bytes) then Expired(v, true)
    else if Reached(l.packets.rekey, v.packets) || Reached(l.bytes.rekey, v.bytes) then Expired(v, false)
    else v
  }

  /** A packet going through the SA, or one of its timers firing. */
  datatype Op = Use(n: nat) | Timer(hard: bool)

  function Step(l: Lifetime, u: Usage, op: Op): Usage {
    match op
    case Use(n) => Used(l, u, n)
    case Timer(hard) => Expired(u, hard)
  }

  function Run(l: Lifetime, u: Usage, ops: seq<Op>): Usage {
    if ops == [] then u else Step(l, Run(l, u, ops[..|ops| - 1]), ops[|ops| - 1])
  }

  function PacketCount(ops: seq<Op>): nat {
    if ops == [] then 0 else PacketCount(ops[..|ops| - 1]) + if ops[|ops| - 1].Use? then 1 else 0
  }

  function ByteCount(ops: seq<Op>): nat {
    if ops == [] then 0 else ByteCount(ops[..|ops| - 1]) + if ops[|ops| - 1].Use? then ops[|ops| - 1].n else 0
  }

  /** The only event histories an SA can produce, with the flags they go with. */
  ghost predicate EventsOk(u: Usage) {
    && u.events == (if u.soft then [SoftExpired] else []) + (if u.hard then [HardExpired] else [])
  }

  /** One step: events stay well ordered, a hard expiry stays, the counters move by what was used. */
  lemma StepOk(l: Lifetime, u: Usage, op: Op)
    requires EventsOk(u)
    ensures var v := Step(l, u, op);
            && EventsOk(v) && (u.hard ==> v.hard)
            && v.packets == (if op.Use? then (u.packets + 1) % U64_LIMIT else u.packets)
            && v.bytes == (if op.Use? then (u.bytes + op.n) % U64_LIMIT else u.bytes)
  {
  }

  /**
   * Over every interleaving of packets and timers: at most one soft and one hard
   * event, never soft after hard; the counters are the packets and bytes that
   * went through; a hard expiry is final.
   */
  lemma {:induction false} LifetimeOfRun(l: Lifetime, ops: seq<Op>)
    ensures var u := Run(l, UNUSED, ops);
            && EventsOk(u)
            && u.packets == PacketCount(ops) % U64_LIMIT
            && u.bytes == ByteCount(ops) % U64_LIMIT
    ensures forall k :: 0 <= k <= |ops| && Run(l, UNUSED, ops[..k]).hard ==> Run(l, UNUSED, ops).hard
  {
    hide Step, EventsOk;
    assert EventsOk(UNUSED) by { UnusedOk(); }
    if ops != [] {
      var front, op := ops[..|ops| - 1], ops[|ops| - 1];
      LifetimeOfRun(l, front);
      StepOk(l, Run(l, UNUSED, front), op);
      forall k | 0 <= k <= |ops| && Run(l, UNUSED, ops[..k]).hard
        ensures Run(l, UNUSED, ops).hard
      {
        if k < |ops| {
          assert front[..k] == ops[..k];
        } else {
          assert ops[..k] == ops;
        }
      }
    } else {
      assert forall k :: 0 <= k <= |ops| ==> ops[..k] == [];
    }
  }

  lemma UnusedOk()
    ensures EventsOk(UNUSED)
  {
  }

  /** Exactly when a packet expires the SA, and how: hard limits come first, a soft expiry only once and before a hard one. */
  lemma ExpiryIff(l: Lifetime, u: Usage, n: nat)
    ensures var v := Used(l, u, n);
            var hardDue := 0 < l.packets.life <= v.packets || 0 < l.bytes.life <= v.bytes;
            var softDue := 0 < l.packets.rekey <= v.packets || 0 < l.bytes.rekey <= v.bytes;
            && (v.hard <==> u.hard || hardDue)
            && (v.soft <==> u.soft || (softDue && !hardDue && !u.hard))
            && |v.events| == |u.events| + (if hardDue && !u.hard then 1 else 0) + (if v.soft && !u.soft then 1 else 0)
  {
  }

  predicate HardTimer(ops: seq<Op>) {
    exists k :: 0 <= k < |ops| && ops[k] == Timer(true)
  }

  /** Over a whole run, while the counters do not wrap: hard expiry comes exactly from a hard timer or a reached limit. */
  lemma {:induction false} HardExpiryOfRun(l: Lifetime, ops: seq<Op>)
    requires PacketCount(ops) < U64_LIMIT && ByteCount(ops) < U64_LIMIT
    ensures Run(l, UNUSED, ops).hard <==>
            HardTimer(ops) || 0 < l.packets.life <= PacketCount(ops) || 0 < l.bytes.life <= ByteCount(ops)
  {
    hide Used, HardTimer;
    if ops == [] {
      assert !HardTimer(ops) by { NoTimer(); }
    } else {
      var front, op := ops[..|ops| - 1], ops[|ops| - 1];
      HardExpiryOfRun(l, front);
      HardTimerLast(ops);
      if op.Use? {
        Counters(l, front);
        Counters(l, ops);
        ExpiryIff(l, Run(l, UNUSED, front), op.n);
      }
    }
  }

  /** Step k of a run is a soft timer, or a packet with which a soft limit is reached, while the SA has not expired hard. */
  predicate SoftDue(l: Lifetime, ops: seq<Op>, k: nat)
    requires k < |ops|
  {
    && !Ended(l, ops[..k])
    && (ops[k] == Timer(false) ||
        (&& ops[k].Use? && !Ended(l, ops[..k + 1])
         && (0 < l.packets.rekey <= PacketCount(ops[..k + 1]) || 0 < l.bytes.rekey <= ByteCount(ops[..k + 1]))))
  }

  /** Over a whole run, while the counters do not wrap: a soft expiry comes exactly from such a step. */
  lemma {:induction false} SoftExpiryOfRun(l: Lifetime, ops: seq<Op>)
    requires PacketCount(ops) < U64_LIMIT && ByteCount(ops) < U64_LIMIT
    ensures Run(l, UNUSED, ops).soft <==> exists k: nat :: k < |ops| && SoftDue(l, ops, k)
  {
    if ops != [] {
      var front, n := ops[..|ops| - 1], |ops| - 1;
      SoftExpiryOfRun(l, front);
      hide Ended;
      forall k: nat | k < n
        ensures SoftDue(l, front, k) <==> SoftDue(l, ops, k)
      {
        assert front[..k] == ops[..k] && front[..k + 1] == ops[..k + 1];
      }
      assert ops[..n] == front && ops[..n + 1] == ops;
      SoftStep(l, ops);
      hide SoftDue, Run;
      if exists k: nat :: k < n && SoftDue(l, front, k) {
        var k: nat :| k < n && SoftDue(l, front, k);
        assert SoftDue(l, ops, k);
      }
    }
  }

  lemma SoftStep(l: Lifetime, ops: seq<Op>)
    requires ops != [] && PacketCount(ops) < U64_LIMIT && ByteCount(ops) < U64_LIMIT
    ensures Run(l, UNUSED, ops).soft <==> Run(l, UNUSED, ops[..|ops| - 1]).soft || SoftDue(l, ops, |ops| - 1)
  {
    var front, op := ops[..|ops| - 1], ops[|ops| - 1];
    assert ops[..|ops| - 1 + 1] == ops;
    HardExpiryOfRun(l, front);
    HardExpiryOfRun(l, ops);
    hide Used, HardTimer;
    if op.Use? {
      Counters(l, ops);
      ExpiryIff(l, Run(l, UNUSED, front), op.n);
    }
  }

  lemma Counters(l: Lifetime, ops: seq<Op>)
    requires PacketCount(ops) < U64_LIMIT && ByteCount(ops) < U64_LIMIT
    ensures Run(l, UNUSED, ops).packets == PacketCount(ops) && Run(l, UNUSED, ops).bytes == ByteCount(ops)
  {
    hide PacketCount, ByteCount, Run;
    LifetimeOfRun(l, ops);
  }

  lemma NoTimer()
    ensures !HardTimer([])
  {
  }

  lemma HardTimerLast(ops: seq<Op>)
    requires ops != []
    ensures HardTimer(ops) <==> HardTimer(ops[..|ops| - 1]) || ops[|ops| - 1] == Timer(true)
  {
    var front := ops[..|ops| - 1];
    if HardTimer(front) {
      var k :| 0 <= k < |front| && front[k] == Timer(true);
      assert ops[k] == Timer(true);
    }
  }

  class Sa {
    const spi: nat
    const reqid: nat
    const inbound: bool
    const lifetime: Lifetime
    const context: Context
    var src: seq<byte>
    var dst: seq<byte>
    var usePackets: nat
    var useBytes: nat
    var softExpired: bool
    var hardExpired: bool
    /** Expiry events raised so far. */
    var events: seq<Event>

    constructor (spi: nat, src: seq<byte>, dst: seq<byte>, reqid: nat, inbound: bool, lifetime: Lifetime, context: Context)
      ensures this.spi == spi && this.src == src && this.dst == dst && this.reqid == reqid && this.inbound == inbound
      ensures this.lifetime == lifetime && this.context == context && Now() == UNUSED
    {
      this.spi, this.src, this.dst, this.reqid, this.inbound := spi, src, dst, reqid, inbound;
      this.lifetime, this.context := lifetime, context;
      usePackets, useBytes, softExpired, hardExpired, events := 0, 0, false, false, [];
    }

    function Now(): Usage
      reads this
    {
      Usage(usePackets, useBytes, softExpired, hardExpired, events)
    }

    method Expire(hard: bool)
      modifies this`softExpired, this`hardExpired, this`events
      ensures Now() == Expired(old(Now()), hard)
    {
      if hard {
        if !hardExpired {
          hardExpired := true;
          events := events + [HardExpired];
        }
      } else {
        if !hardExpired && !softExpired {
          softExpired := true;
          events := events + [SoftExpired];
        }
      }
    }

    method UpdateUsestats(n: nat)
      modifies this`usePackets, this`useBytes, this`softExpired, this`hardExpired, this`events
      ensures Now() == Used(lifetime, old(Now()), n)
    {
      usePackets := (usePackets + 1) % U64_LIMIT;
      useBytes := (useBytes + n) % U64_LIMIT;
      if lifetime.packets.life != 0 && usePackets >= lifetime.packets.life {
        Expire(true);
      } else if lifetime.bytes.life != 0 && useBytes >= lifetime.bytes.life {
        Expire(true);
      } else if lifetime.packets.rekey != 0 && usePackets >= lifetime.packets.rekey {
        Expire(false);
      } else if lifetime.bytes.rekey != 0 && useBytes >= lifetime.bytes.rekey {
        Expire(false);
      }
    }

    /** A hard-expired SA is found by neither of the data path's searches. */
    predicate MatchBySpiDst(spi: nat, dst: seq<byte>)
      reads this
      ensures hardExpired ==> !MatchBySpiDst(spi, dst)
    {
      this.spi == spi && this.dst == dst && !hardExpired
    }

    predicate MatchByReqid(reqid: nat, inbound: bool)
      reads this
      ensures hardExpired ==> !MatchByReqid(reqid, inbound)
    {
      this.reqid == reqid && this.inbound == inbound && !hardExpired
    }
  }

  /** The limits configured are reached by the packets of a run, or a hard timer fired in it. */
  predicate Ended(l: Lifetime, ops: seq<Op>) {
    HardTimer(ops) || 0 < l.packets.life <= PacketCount(ops) || 0 < l.bytes.life <= ByteCount(ops)
  }

  /**
   * After any run that ended an SA, and whatever follows, neither search of the
   * data path finds it again; until then both find it under its own values.
   */
  lemma SearchesOfRun(sa: Sa, ops: seq<Op>, more: seq<Op>)
    requires PacketCount(ops) < U64_LIMIT && ByteCount(ops) < U64_LIMIT
    requires sa.Now() == Run(sa.lifetime, UNUSED, ops + more)
    ensures Ended(sa.lifetime, ops) ==> forall spi, dst :: !sa.MatchBySpiDst(spi, dst)
    ensures Ended(sa.lifetime, ops) ==> forall reqid, inbound :: !sa.MatchByReqid(reqid, inbound)
    ensures more == [] && !Ended(sa.lifetime, ops) ==>
              sa.MatchBySpiDst(sa.spi, sa.dst) && sa.MatchByReqid(sa.reqid, sa.inbound)
  {
    hide Run, PacketCount, ByteCount, HardTimer;
    HardExpiryOfRun(sa.lifetime, ops);
    LifetimeOfRun(sa.lifetime, ops + more);
    assert (ops + more)[..|ops|] == ops;
    assert more == [] ==> ops + more == ops;
    if Ended(sa.lifetime, ops) {
      assert 0 <= |ops| <= |ops + more| && Run(sa.lifetime, UNUSED, (ops + more)[..|ops|]).hard;
      assert sa.Now().hard;
      assert sa.hardExpired;
    }
  }

  // ----- timed expiry

  /** When a timer fires, and whether it is the hard one. */
  datatype Firing = Firing(time: nat, hard: bool)

  /**
   * The timers of an SA installed at time 0. Offsets are kept in 32 bits; a soft
   * timer whose remaining offset is 0 counts as hard.
   */
  function Timers(time: Limit): seq<Firing> {
    if time.life == 0 then []
    else if time.life <= time.rekey || time.rekey == 0 then [Firing(time.life % U32_LIMIT, true)]
    else
      var offset := (time.life - time.rekey) % U32_LIMIT;
      var timeout := time.rekey % U32_LIMIT;
      if offset == 0 then [Firing(timeout, true)] else [Firing(timeout, false), Firing(timeout + offset, true)]
  }

  /** Which of the configured times survive the truncation to 32 bits. */
  predicate FitsTimers(time: Limit) {
    if time.life <= time.rekey || time.rekey == 0 then time.life < U32_LIMIT
    else time.rekey < U32_LIMIT && time.life - time.rekey < U32_LIMIT
  }

  /** With or without a rekey stage, the hard timer fires at the end of the lifetime exactly if the times fit. */
  lemma HardTimerAtLife(time: Limit)
    requires time.life > 0
    ensures var ts := Timers(time);
            && 1 <= |ts| <= 2 && ts[|ts| - 1].hard
            && (ts[|ts| - 1].time == time.life <==> FitsTimers(time))
            && (FitsTimers(time) && 0 < time.rekey < time.life ==> ts == [Firing(time.rekey, false), Firing(time.life, true)])
            && (|ts| == 2 <==> 0 < time.rekey < time.life && (time.life - time.rekey) % U32_LIMIT != 0)
            && (|ts| == 2 ==> ts[0] == Firing(time.rekey % U32_LIMIT, false))
            && (0 < time.rekey < time.life ==> ts[0].time == time.rekey % U32_LIMIT)
  {
  }

  /** A lifetime of 2^32 seconds without a rekey stage expires the SA at once. */
  lemma LongLifeExpiresAtOnce()
    ensures var time := Limit(U32_LIMIT, 0);
            !FitsTimers(time) && Timers(time) == [Firing(0, true)]
  {
  }
}
