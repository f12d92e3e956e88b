/** The IPsec policy database: a list kept sorted by a pseudo-priority, searched front to back. */
module PolicyManager {
  import opened Bytes
  import opened IpPacket

  const PRIO_BASE: nat := 384

  datatype Direction = In | Out | Fwd
  datatype Kind = KindIpsec | KindPass | KindDrop
  datatype Class = Pass | Default | Routed | Fallback

  /** A traffic selector: an address range, a port range, a protocol, and the prefix length of the range. */
  datatype Selector = Selector(from: seq<byte>, to: seq<byte>, fromPort: nat, toPort: nat, proto: byte, mask: nat)

  /** memcmp(a, b) <= 0 on equally long addresses. */
  predicate NotAfter(a: seq<byte>, b: seq<byte>)
    requires |a| == |b|
  {
    a == [] || a[0] < b[0] || (a[0] == b[0] && NotAfter(a[1..], b[1..]))
  }

  /** An address as the number its bytes spell. */
  function Number(a: seq<byte>): nat {
    if a == [] then 0 else a[0] * Pow256(|a| - 1) + Number(a[1..])
  }

  function Pow256(n: nat): (p: nat)
    ensures p > 0
  {
    if n == 0 then 1 else 256 * Pow256(n - 1)
  }

  lemma {:induction false} NumberRange(a: seq<byte>)
    ensures Number(a) < Pow256(|a|)
  {
    if a != [] {
      NumberRange(a[1..]);
      Digit(a[0], Number(a[1..]), 256, Pow256(|a| - 1));
    }
  }

  lemma {:induction false} MulMono(x: nat, y: nat, p: nat)
    requires x <= y
    ensures x * p <= y * p
  {
    if x < y {
      MulMono(x, y - 1, p);
      assert (y - 1) * p + p == y * p;
    }
  }

  /** A smaller leading digit makes a smaller number, whatever follows. */
  lemma Digit(x: nat, u: nat, y: nat, p: nat)
    requires x < y && u < p
    ensures x * p + u < y * p
  {
    MulMono(x + 1, y, p);
    assert (x + 1) * p == x * p + p;
  }

  /** Comparing bytes from the front compares the numbers. */
  lemma {:induction false} NotAfterIsNumeric(a: seq<byte>, b: seq<byte>)
    requires |a| == |b|
    ensures NotAfter(a, b) <==> Number(a) <= Number(b)
  {
    if a != [] {
      NumberRange(a[1..]);
      NumberRange(b[1..]);
      NotAfterIsNumeric(a[1..], b[1..]);
      var p := Pow256(|a| - 1);
      if a[0] < b[0] {
        Digit(a[0], Number(a[1..]), b[0], p);
      } else if a[0] > b[0] {
        Digit(b[0], Number(b[1..]), a[0], p);
      }
    }
  }

  /** A selector covers the hosts of its address family between its two ends. */
  lemma IncludesIff(s: Selector, h: Host)
    ensures Includes(s, h) <==>
            |s.from| == |s.to| == |h.address| && Number(s.from) <= Number(h.address) <= Number(s.to)
  {
    if |s.from| == |s.to| == |h.address| {
      NotAfterIsNumeric(s.from, h.address);
      NotAfterIsNumeric(h.address, s.to);
    }
  }

  predicate Includes(s: Selector, h: Host) {
    |s.from| == |s.to| == |h.address| && NotAfter(s.from, h.address) && NotAfter(h.address, s.to)
  }

  /** The port of the selector's subnet: set only for a single-port range. */
  function Port(s: Selector): nat {
    if s.toPort == s.fromPort then s.toPort else 0
  }

  function Base(c: Class): nat {
    match c
    case Pass => PRIO_BASE
    case Default => PRIO_BASE * 2
    case Routed => PRIO_BASE * 4
    case Fallback => PRIO_BASE * 8
  }

  predicate SelectorOk(s: Selector) {
    s.mask <= 128
  }

  function PortFlag(src: Selector, dst: Selector): nat {
    if Max(Port(src), Port(dst)) != 0 then 0 else 2
  }

  function ProtoFlag(src: Selector, dst: Selector): nat {
    if Max(src.proto, dst.proto) != 0 then 0 else 1
  }

  /** Small value, high priority. The 32-bit subtractions wrap. */
  function Priority(c: Class, src: Selector, dst: Selector): nat {
    var p := (Base(c) - src.mask) % U32_LIMIT;
    var q := (p - dst.mask) % U32_LIMIT;
    (q * 4) % U32_LIMIT + PortFlag(src, dst) + ProtoFlag(src, dst)
  }

  lemma PriorityExact(c: Class, src: Selector, dst: Selector)
    requires SelectorOk(src) && SelectorOk(dst)
    ensures Priority(c, src, dst) == 4 * (Base(c) - (src.mask + dst.mask)) + PortFlag(src, dst) + ProtoFlag(src, dst)
  {
    hide PortFlag, ProtoFlag;
    BaseRange(c);
    hide Base;
    Unwrapped(Base(c) - src.mask);
    Unwrapped(Base(c) - src.mask - dst.mask);
    Unwrapped((Base(c) - src.mask - dst.mask) * 4);
  }

  lemma BaseRange(c: Class)
    ensures 256 <= Base(c) < U32_LIMIT / 4
  {
  }

  lemma Unwrapped(n: int)
    requires 0 <= n < U32_LIMIT
    ensures n % U32_LIMIT == n
  {
  }

  function Rank(c: Class): nat {
    match c case Pass => 0 case Default => 1 case Routed => 2 case Fallback => 3
  }

  /** The classes occupy disjoint bands, in the order PASS, DEFAULT, ROUTED, FALLBACK. */
  lemma PriorityBands(c: Class, src: Selector, dst: Selector, c': Class, src': Selector, dst': Selector)
    requires SelectorOk(src) && SelectorOk(dst) && SelectorOk(src') && SelectorOk(dst')
    requires c != c'
    ensures Priority(c, src, dst) < Priority(c', src', dst') <==> Rank(c) < Rank(c')
    ensures Priority(c, src, dst) < Priority(c', src', dst') <==>
            c == Pass || c' == Fallback || (c == Default && c' == Routed)
  {
    hide PortFlag, ProtoFlag, Priority;
    FlagRange(src, dst);
    FlagRange(src', dst');
    PriorityExact(c, src, dst);
    PriorityExact(c', src', dst');
  }

  lemma FlagRange(src: Selector, dst: Selector)
    ensures PortFlag(src, dst) <= 2 && ProtoFlag(src, dst) <= 1
  {
  }

  /** The selector names a single port. */
  predicate OnePort(s: Selector) {
    s.fromPort == s.toPort && s.toPort != 0
  }

  /** Within a class: longer prefixes first, then selectors with a port, then those with a protocol. */
  lemma PriorityWithinClass(c: Class, src: Selector, dst: Selector, src': Selector, dst': Selector)
    requires SelectorOk(src) && SelectorOk(dst) && SelectorOk(src') && SelectorOk(dst')
    ensures var (n, n') := (src.mask + dst.mask, src'.mask + dst'.mask);
            var (port, port') := (OnePort(src) || OnePort(dst), OnePort(src') || OnePort(dst'));
            var (proto, proto') := (src.proto != 0 || dst.proto != 0, src'.proto != 0 || dst'.proto != 0);
            Priority(c, src, dst) < Priority(c, src', dst') <==>
              n > n' || (n == n' && port && !port') || (n == n' && port == port' && proto && !proto')
  {
    PriorityExact(c, src, dst);
    PriorityExact(c, src', dst');
    hide Priority;
  }

  datatype Policy = Policy(srcTs: Selector, dstTs: Selector, direction: Direction, reqid: nat, mark: (nat, nat), class_: Class)

  /** If any of the two selectors has a protocol. */
  function Protocol(p: Policy): nat {
    Max(p.srcTs.proto, p.dstTs.proto)
  }

  predicate MatchPacket(p: Policy, ip: Ip) {
    (Protocol(p) == 0 || Protocol(p) == ip.nextHeader) && Includes(p.srcTs, ip.src) && Includes(p.dstTs, ip.dst)
  }

  /** The policy applies to the packet, direction and request id asked for (0 asks for any). */
  predicate Applies(p: Policy, ip: Ip, inbound: bool, reqid: nat) {
    inbound == (p.direction == In) && MatchPacket(p, ip) && (reqid == 0 || reqid == p.reqid)
  }

  /** An address lies in the range of a selector of its family, read as numbers. */
  predicate Between(s: Selector, address: seq<byte>) {
    |s.from| == |s.to| == |address| && Number(s.from) <= Number(address) <= Number(s.to)
  }

  /**
   * The source selector covers the packet's source and the destination selector
   * its destination, and the larger of the two protocols is the packet's or 0.
   */
  predicate Covers(p: Policy, ip: Ip) {
    && Between(p.srcTs, ip.src.address) && Between(p.dstTs, ip.dst.address)
    && ((p.srcTs.proto == 0 && p.dstTs.proto == 0) ||
        ip.nextHeader == if p.srcTs.proto >= p.dstTs.proto then p.srcTs.proto else p.dstTs.proto)
  }

  /** Which policies apply to which packets. */
  lemma AppliesIff(p: Policy, ip: Ip, inbound: bool, reqid: nat)
    ensures Applies(p, ip, inbound, reqid) <==>
            inbound == (p.direction == In) && Covers(p, ip) && (reqid == 0 || p.reqid == reqid)
  {
    IncludesIff(p.srcTs, ip.src);
    IncludesIff(p.dstTs, ip.dst);
  }

  datatype Entry = Entry(priority: nat, policy: Policy)

  function MakeEntry(p: Policy): Entry {
    Entry(Priority(p.class_, p.srcTs, p.dstTs), p)
  }

  /** Position in front of the first entry that is not of smaller value. */
  function InsertPosition(entries: seq<Entry>, priority: nat): (i: nat)
    ensures i <= |entries|
    ensures forall k :: 0 <= k < i ==> entries[k].priority < priority
    ensures i < |entries| ==> entries[i].priority >= priority
  {
    if entries == [] || entries[0].priority >= priority then 0 else 1 + InsertPosition(entries[1..], priority)
  }

  function Added(entries: seq<Entry>, e: Entry): seq<Entry> {
    var i := InsertPosition(entries, e.priority);
    entries[..i] + [e] + entries[i..]
  }

  /** Without the first entry equal to e, as the deletion looks it up. */
  function Deleted(entries: seq<Entry>, e: Entry): Option<seq<Entry>> {
    if entries == [] then None
    else if entries[0] == e then Some(entries[1..])
    else match Deleted(entries[1..], e)
         case None => None
         case Some(rest) => Some([entries[0]] + rest)
  }

  /** The entry a deletion takes out. */
  predicate FirstAt(entries: seq<Entry>, e: Entry, i: nat) {
    i < |entries| && entries[i] == e && forall k :: 0 <= k < i ==> entries[k] != e
  }

  lemma AddedBehind(entries: seq<Entry>, e: Entry)
    requires entries != [] && entries[0].priority < e.priority
    ensures Added(entries, e) == [entries[0]] + Added(entries[1..], e)
  {
  }

  /** Adding and then deleting the same policy restores the list exactly. */
  lemma {:induction false} AddThenDelete(entries: seq<Entry>, e: Entry)
    ensures Deleted(Added(entries, e), e) == Some(entries)
  {
    if entries == [] || entries[0].priority >= e.priority {
      assert Added(entries, e) == [e] + entries;
    } else {
      AddedBehind(entries, e);
      hide Added, InsertPosition;
      AddThenDelete(entries[1..], e);
      assert Added(entries, e)[1..] == Added(entries[1..], e);
      assert [entries[0]] + entries[1..] == entries;
    }
  }

  /** The entries with the times they were added: sorted, newest first among equals. */
  ghost predicate Ordered(entries: seq<Entry>, stamps: seq<nat>) {
    && |stamps| == |entries|
    && forall i, j :: 0 <= i < j < |entries| ==>
         entries[i].priority < entries[j].priority || (entries[i].priority == entries[j].priority && stamps[i] > stamps[j])
  }

  lemma StampsMatch(entries: seq<Entry>, stamps: seq<nat>)
    requires Ordered(entries, stamps)
    ensures |stamps| == |entries|
  {
  }

  /** Every entry has the priority of its policy. */
  ghost predicate Ranked(entries: seq<Entry>) {
    forall i :: 0 <= i < |entries| ==> entries[i].priority == Priority(entries[i].policy.class_, entries[i].policy.srcTs, entries[i].policy.dstTs)
  }

  ghost predicate Before(clock: nat, stamps: seq<nat>) {
    forall i :: 0 <= i < |stamps| ==> stamps[i] < clock
  }

  class Manager {
    var policies: seq<Entry>
    /** When each entry was added. */
    ghost var stamps: seq<nat>
    ghost var clock: nat

    ghost predicate Valid()
      reads this
    {
      Ordered(policies, stamps) && Before(clock, stamps) && Ranked(policies)
    }

    constructor ()
      ensures Valid() && policies == []
    {
      policies, stamps, clock := [], [], 0;
    }

    method AddPolicy(p: Policy, kind: Kind)
      requires Valid()
      modifies this
      ensures Valid()
      ensures policies == if kind != KindIpsec || p.direction == Fwd then old(policies) else Added(old(policies), MakeEntry(p))
      ensures var i := InsertPosition(old(policies), MakeEntry(p).priority);
              stamps == if kind != KindIpsec || p.direction == Fwd then old(stamps)
                        else old(stamps)[..i] + [old(clock)] + old(stamps)[i..]
      ensures clock == if kind != KindIpsec || p.direction == Fwd then old(clock) else old(clock) + 1
    {
      if kind != KindIpsec || p.direction == Fwd {
        return;
      }
      var entry := MakeEntry(p);
      var i := 0;
      while i < |policies| && policies[i].priority < entry.priority
        invariant i <= |policies|
        invariant InsertPosition(policies, entry.priority) == i + InsertPosition(policies[i..], entry.priority)
      {
        assert policies[i..][1..] == policies[i + 1..];
        i := i + 1;
      }
      AddedOrdered(policies, stamps, clock, entry);
      RankedWith(policies, i, entry);
      policies := policies[..i] + [entry] + policies[i..];
      stamps := stamps[..i] + [clock] + stamps[i..];
      clock := clock + 1;
    }

    method DelPolicy(p: Policy, kind: Kind) returns (ok: bool)
      requires Valid()
      modifies this
      ensures Valid()
      ensures if kind != KindIpsec || p.direction == Fwd then ok && policies == old(policies)
              else match Deleted(old(policies), MakeEntry(p))
                   case None => !ok && policies == old(policies)
                   case Some(rest) => ok && policies == rest
      ensures clock == old(clock)
      ensures kind != KindIpsec || p.direction == Fwd || !ok ==> stamps == old(stamps)
      ensures kind == KindIpsec && p.direction != Fwd && ok ==>
                exists i :: 0 <= i < |old(policies)| && FirstAt(old(policies), MakeEntry(p), i) &&
                            policies == old(policies)[..i] + old(policies)[i + 1..] &&
                            stamps == old(stamps)[..i] + old(stamps)[i + 1..]
    {
      if kind != KindIpsec || p.direction == Fwd {
        return true;
      }
      hide Ordered, Before, Priority, Ranked;
      var priority := Priority(p.class_, p.srcTs, p.dstTs);
      var i := 0;
      assert policies[0..] == policies;
      RejoinEmpty(Deleted(policies, MakeEntry(p)));
      while i < |policies| && !(policies[i].priority == priority && policies[i].policy == p)
        invariant Valid() && policies == old(policies) && stamps == old(stamps) && clock == old(clock) && i <= |policies|
        invariant forall k :: 0 <= k < i ==> policies[k] != MakeEntry(p)
        invariant Deleted(policies, MakeEntry(p)) == Rejoin(policies[..i], Deleted(policies[i..], MakeEntry(p)))
      {
        RejoinStep(policies, i, MakeEntry(p));
        i := i + 1;
      }
      if i == |policies| {
        return false;
      }
      assert policies[i..][1..] == policies[i + 1..];
      assert FirstAt(policies, MakeEntry(p), i);
      assert |stamps| == |policies| by { StampsMatch(policies, stamps); }
      RemovedOrdered(policies, stamps, clock, i);
      RankedBut(policies, i);
      policies := policies[..i] + policies[i + 1..];
      stamps := stamps[..i] + stamps[i + 1..];
      return true;
    }

    method FlushPolicies()
      requires Valid()
      modifies this
      ensures Valid() && policies == []
    {
      hide Priority;
      while policies != []
        invariant Valid()
        decreases |policies|
      {
        policies := policies[..|policies| - 1];
        stamps := stamps[..|stamps| - 1];
      }
    }

    /** Of all policies that apply, p has the smallest priority value, and is the newest of those. */
    ghost predicate Best(p: Policy, ip: Ip, inbound: bool, reqid: nat)
      reads this
    {
      |stamps| == |policies| &&
      exists i :: 0 <= i < |policies| && policies[i].policy == p && Applies(p, ip, inbound, reqid) &&
        forall j :: 0 <= j < |policies| && j != i && Applies(policies[j].policy, ip, inbound, reqid) ==>
          policies[i].priority < policies[j].priority ||
          (policies[i].priority == policies[j].priority && stamps[i] > stamps[j])
    }

    /** The search returns the best applicable policy, the newest one among equally good. */
    method FindByPacket(ip: Ip, inbound: bool, reqid: nat) returns (found: Option<Policy>)
      requires Valid()
      ensures found.None? <==> forall j :: 0 <= j < |policies| ==> !Applies(policies[j].policy, ip, inbound, reqid)
      ensures found.Some? ==> Best(found.value, ip, inbound, reqid) && Applies(found.value, ip, inbound, reqid)
      ensures found.Some? ==> inbound == (found.value.direction == In) && Covers(found.value, ip) && reqid in {0, found.value.reqid}
    {
      hide Covers;
      for i := 0 to |policies|
        invariant forall j :: 0 <= j < i ==> !Applies(policies[j].policy, ip, inbound, reqid)
      {
        var policy := policies[i].policy;
        if inbound == (policy.direction == In) && MatchPacket(policy, ip) {
          if reqid == 0 || reqid == policy.reqid {
            assert Applies(policies[i].policy, ip, inbound, reqid);
            AppliesIff(policy, ip, inbound, reqid);
            return Some(policy);
          }
        }
      }
      return None;
    }
  }

  function Rejoin(front: seq<Entry>, rest: Option<seq<Entry>>): Option<seq<Entry>> {
    match rest case None => None case Some(r) => Some(front + r)
  }

  lemma RejoinEmpty(rest: Option<seq<Entry>>)
    ensures Rejoin([], rest) == rest
  {
    match rest case None => case Some(r) => assert [] + r == r;
  }

  /** Insertion keeps the order: the new entry is the newest of its priority and stands first among them. */
  lemma AddedOrdered(entries: seq<Entry>, stamps: seq<nat>, clock: nat, e: Entry)
    requires Ordered(entries, stamps) && Before(clock, stamps)
    ensures var i := InsertPosition(entries, e.priority);
            && Ordered(Added(entries, e), stamps[..i] + [clock] + stamps[i..])
            && Before(clock + 1, stamps[..i] + [clock] + stamps[i..])
  {
    hide InsertPosition, Added;
    var i := InsertPosition(entries, e.priority);
    var entries', stamps' := Added(entries, e), stamps[..i] + [clock] + stamps[i..];
    AddedAt(entries, e, 0);
    assert |entries'| == |stamps'|;
    forall j, k | 0 <= j < k < |entries'|
      ensures entries'[j].priority < entries'[k].priority ||
              (entries'[j].priority == entries'[k].priority && stamps'[j] > stamps'[k])
    {
      AddedPair(entries, stamps, clock, e, j, k);
    }
  }

  /** The list with the new entry, position by position. */
  lemma AddedAt(entries: seq<Entry>, e: Entry, k: nat)
    requires k <= |entries|
    ensures |Added(entries, e)| == |entries| + 1
    ensures var i := InsertPosition(entries, e.priority);
            Added(entries, e)[k] == if k < i then entries[k] else if k == i then e else entries[k - 1]
  {
    hide InsertPosition;
  }

  lemma AddedPair(entries: seq<Entry>, stamps: seq<nat>, clock: nat, e: Entry, j: nat, k: nat)
    requires Ordered(entries, stamps) && Before(clock, stamps) && j < k <= |entries|
    ensures |Added(entries, e)| == |entries| + 1
    ensures var i := InsertPosition(entries, e.priority);
            var (entries', stamps') := (Added(entries, e), stamps[..i] + [clock] + stamps[i..]);
            entries'[j].priority < entries'[k].priority ||
            (entries'[j].priority == entries'[k].priority && stamps'[j] > stamps'[k])
  {
    hide InsertPosition, Added;
    AddedAt(entries, e, j);
    AddedAt(entries, e, k);
    var i := InsertPosition(entries, e.priority);
    var entries', stamps' := Added(entries, e), stamps[..i] + [clock] + stamps[i..];
    var j0, k0 := if j < i then j else j - 1, if k < i then k else k - 1;
    if j == i {
      assert entries'[k] == entries[k0] && stamps'[k] == stamps[k0] && entries[k0].priority >= entries[i].priority;
    } else if k == i {
      assert entries'[j] == entries[j];
    } else {
      assert entries'[j] == entries[j0] && entries'[k] == entries[k0];
      assert stamps'[j] == stamps[j0] && stamps'[k] == stamps[k0];
    }
  }

  lemma RemovedOrdered(entries: seq<Entry>, stamps: seq<nat>, clock: nat, i: nat)
    requires Ordered(entries, stamps) && Before(clock, stamps) && i < |entries|
    ensures |stamps| == |entries|
    ensures Ordered(entries[..i] + entries[i + 1..], stamps[..i] + stamps[i + 1..])
    ensures Before(clock, stamps[..i] + stamps[i + 1..])
  {
  }

  lemma RejoinStep(entries: seq<Entry>, i: nat, e: Entry)
    requires i < |entries| && entries[i] != e
    ensures Rejoin(entries[..i], Deleted(entries[i..], e)) == Rejoin(entries[..i + 1], Deleted(entries[i + 1..], e))
  {
    assert entries[i..][1..] == entries[i + 1..];
    match Deleted(entries[i + 1..], e)
    case None =>
    case Some(r) => assert entries[..i] + ([entries[i]] + r) == entries[..i + 1] + r;
  }

  lemma RankedWith(entries: seq<Entry>, i: nat, e: Entry)
    requires Ranked(entries) && i <= |entries| && Ranked([e])
    ensures Ranked(entries[..i] + [e] + entries[i..])
  {
    hide Priority;
    assert [e][0] == e;
  }

  lemma RankedBut(entries: seq<Entry>, i: nat)
    requires Ranked(entries) && i < |entries|
    ensures Ranked(entries[..i] + entries[i + 1..])
  {
    hide Priority;
  }

  /** The order policies are meant to be searched in: by class, then the longer prefixes, then with a port, then with a protocol. */
  predicate Outranks(p: Policy, q: Policy) {
    var (n, n') := (p.srcTs.mask + p.dstTs.mask, q.srcTs.mask + q.dstTs.mask);
    var (port, port') := (OnePort(p.srcTs) || OnePort(p.dstTs), OnePort(q.srcTs) || OnePort(q.dstTs));
    var (proto, proto') := (p.srcTs.proto != 0 || p.dstTs.proto != 0, q.srcTs.proto != 0 || q.dstTs.proto != 0);
    || Rank(p.class_) < Rank(q.class_)
    || (p.class_ == q.class_ &&
        (n > n' || (n == n' && port && !port') || (n == n' && port == port' && proto && !proto')))
  }

  lemma OutranksIsPriority(p: Policy, q: Policy)
    requires SelectorOk(p.srcTs) && SelectorOk(p.dstTs) && SelectorOk(q.srcTs) && SelectorOk(q.dstTs)
    ensures Outranks(p, q) <==> Priority(p.class_, p.srcTs, p.dstTs) < Priority(q.class_, q.srcTs, q.dstTs)
  {
    hide Priority, OnePort;
    if p.class_ == q.class_ {
      PriorityWithinClass(p.class_, p.srcTs, p.dstTs, q.srcTs, q.dstTs);
    } else {
      PriorityBands(p.class_, p.srcTs, p.dstTs, q.class_, q.srcTs, q.dstTs);
    }
  }

  /** No policy that applies outranks the one the search returns. */
  lemma BestIsUnranked(m: Manager, p: Policy, ip: Ip, inbound: bool, reqid: nat, j: nat)
    requires m.Valid() && m.Best(p, ip, inbound, reqid) && j < |m.policies|
    requires forall e <- m.policies :: SelectorOk(e.policy.srcTs) && SelectorOk(e.policy.dstTs)
    ensures var q := m.policies[j].policy;
            inbound == (q.direction == In) && Covers(q, ip) && reqid in {0, q.reqid} ==> !Outranks(q, p)
  {
    hide Priority, Ordered, Before, Applies, Covers, Outranks;
    var q := m.policies[j].policy;
    AppliesIff(q, ip, inbound, reqid);
    var i :| 0 <= i < |m.policies| && m.policies[i].policy == p && Applies(p, ip, inbound, reqid) &&
      forall k :: 0 <= k < |m.policies| && k != i && Applies(m.policies[k].policy, ip, inbound, reqid) ==>
        m.policies[i].priority < m.policies[k].priority ||
        (m.policies[i].priority == m.policies[k].priority && m.stamps[i] > m.stamps[k]);
    assert m.policies[i] in m.policies && m.policies[j] in m.policies;
    OutranksIsPriority(q, p);
  }
}
