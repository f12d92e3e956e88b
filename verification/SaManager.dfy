/**
 * The SAD as the manager keeps it: a list of installed SAs, newest first, and
 * the SPIs handed out for inbound SAs that are not installed yet. The waiting
 * some operations do for an entry is the subject of SaLocking; here its outcome
 * (granted or not) is a parameter, and a run is any sequence of the effects.
 */
module SaManager {
  import opened Bytes

  type Word = x: nat | x < U32_LIMIT

  datatype Entry = Entry(spi: Word, src: seq<byte>, dst: seq<byte>, inbound: bool)

  datatype Db = Db(sas: seq<Entry>, reserved: set<Word>)

  datatype Status = Success | Failed | NotSupported

  /** Byte order conversion on a little-endian host: htonl and ntohl are the same swap. */
  function Htonl(x: Word): Word {
    var b := U32(x);
    Assemble([b[3], b[2], b[1], b[0]])
  }

  function Assemble(b: seq<byte>): Word
    requires |b| == 4
  {
    U16Injective(b[..2]);
    U16Injective(b[2..]);
    FromU32(b)
  }

  lemma AssembleBytes(b: seq<byte>)
    requires |b| == 4
    ensures U32(Assemble(b)) == b
  {
    U16Injective(b[..2]);
    U16Injective(b[2..]);
    U32Joined(FromU16(b[..2]), FromU16(b[2..]));
    hide U32, U16, FromU16;
    assert b == b[..2] + b[2..];
  }

  lemma U32Joined(hi: nat, lo: nat)
    requires lo < 65536
    ensures U32(hi * 65536 + lo) == U16(hi) + U16(lo)
  {
    var n := hi * 65536 + lo;
    assert n / 65536 == hi;
    U16Low(hi, lo);
    hide U16;
  }

  lemma U16Low(hi: nat, lo: nat)
    requires lo < 65536
    ensures U16(hi * 65536 + lo) == U16(lo)
  {
    var n, low := hi * 65536 + lo, lo / 256;
    assert n == (hi * 256 + low) * 256 + lo % 256;
    assert n / 256 == hi * 256 + low;
    assert (hi * 256 + low) % 256 == low % 256;
  }

  lemma HtonlTwice(x: Word)
    ensures Htonl(Htonl(x)) == x
  {
    hide U32, FromU32;
    var b := U32(x);
    var r := [b[3], b[2], b[1], b[0]];
    AssembleBytes(r);
    U32RoundTrip(x);
    assert [r[3], r[2], r[1], r[0]] == b;
    AssembleIs(b);
  }

  lemma AssembleIs(b: seq<byte>)
    requires |b| == 4
    ensures Assemble(b) == FromU32(b)
  {
  }

  /** x | 0x100 */
  function OrBit8(x: Word): Word {
    if (x / 256) % 2 == 1 then x else x + 256
  }

  /** The SPI tried for one random draw. */
  function Candidate(draw: Word): Word {
    Htonl(OrBit8(draw))
  }

  /** Outside the reserved range 0-255, read in host order. */
  predicate Legal(spi: Word) {
    Htonl(spi) >= 256
  }

  lemma CandidateLegal(draw: Word)
    ensures Legal(Candidate(draw))
  {
    HtonlTwice(OrBit8(draw));
    hide Htonl;
  }

  predicate Matches(e: Entry, spi: Word, src: seq<byte>, dst: seq<byte>) {
    e.spi == spi && e.src == src && e.dst == dst
  }

  predicate Installed(sas: seq<Entry>, spi: Word, src: seq<byte>, dst: seq<byte>) {
    exists i :: 0 <= i < |sas| && Matches(sas[i], spi, src, dst)
  }

  predicate InboundSpi(sas: seq<Entry>, spi: Word) {
    exists i :: 0 <= i < |sas| && sas[i].inbound && sas[i].spi == spi
  }

  predicate Free(db: Db, spi: Word) {
    spi !in db.reserved && !InboundSpi(db.sas, spi)
  }

  /** The SPI of the first draw that is free; none if the random source gives out before. */
  function FirstFree(db: Db, draws: seq<Word>): (spi: Option<Word>)
    ensures spi.None? ==> forall k :: 0 <= k < |draws| ==> !Free(db, Candidate(draws[k]))
    ensures spi.Some? ==> Free(db, spi.value)
    ensures spi.Some? ==> exists k :: 0 <= k < |draws| && spi.value == Candidate(draws[k]) &&
                                      forall j :: 0 <= j < k ==> !Free(db, Candidate(draws[j]))
  {
    if draws == [] then None
    else if Free(db, Candidate(draws[0])) then assert Candidate(draws[0]) == Candidate(draws[0]); Some(Candidate(draws[0]))
    else FreeBehind(db, draws); FirstFree(db, draws[1..])
  }

  /** A first free draw further on is one of the whole sequence. */
  lemma FreeBehind(db: Db, draws: seq<Word>)
    requires draws != [] && !Free(db, Candidate(draws[0]))
    ensures forall k :: 0 <= k < |draws| - 1 && (forall j :: 0 <= j < k ==> !Free(db, Candidate(draws[1..][j]))) ==>
              draws[1..][k] == draws[k + 1] && forall j :: 0 <= j < k + 1 ==> !Free(db, Candidate(draws[j]))
  {
    hide Free, Candidate;
    forall k | 0 <= k < |draws| - 1 && (forall j :: 0 <= j < k ==> !Free(db, Candidate(draws[1..][j])))
      ensures draws[1..][k] == draws[k + 1] && forall j :: 0 <= j < k + 1 ==> !Free(db, Candidate(draws[j]))
    {
      forall j | 0 <= j < k + 1
        ensures !Free(db, Candidate(draws[j]))
      {
        assert j > 0 ==> draws[1..][j - 1] == draws[j];
      }
    }
  }

  /** Adding with update uses up the reservation, even when the SA is then found to be installed already. */
  function AfterAdd(db: Db, e: Entry, update: bool): Db {
    var reserved := if update then db.reserved - {e.spi} else db.reserved;
    Db(if Installed(db.sas, e.spi, e.src, e.dst) then db.sas else [e] + db.sas, reserved)
  }

  datatype Step =
    | GetSpi(draws: seq<Word>)
    | Add(e: Entry, update: bool)
    | Remove(i: nat)                                      // deletion, flush or hard expiry of one entry
    | Rewrite(i: nat, src: seq<byte>, dst: seq<byte>)     // the effect of an update on one entry

  function Next(db: Db, step: Step): Db {
    match step
    case GetSpi(draws) =>
      (match FirstFree(db, draws)
       case None => db
       case Some(spi) => db.(reserved := db.reserved + {spi}))
    case Add(e, update) => AfterAdd(db, e, update)
    case Remove(i) => if i < |db.sas| then db.(sas := db.sas[..i] + db.sas[i + 1..]) else db
    case Rewrite(i, src, dst) =>
      if i < |db.sas| then db.(sas := db.sas[i := db.sas[i].(src := src, dst := dst)]) else db
  }

  function Exec(db: Db, steps: seq<Step>): Db
    decreases |steps|
  {
    if steps == [] then db else Exec(Next(db, steps[0]), steps[1..])
  }

  /** Reserved and installed inbound SPIs are legal and all different. */
  ghost predicate SpisOk(db: Db) {
    && (forall spi :: spi in db.reserved ==> Legal(spi))
    && (forall i :: 0 <= i < |db.sas| && db.sas[i].inbound ==> Legal(db.sas[i].spi) && db.sas[i].spi !in db.reserved)
    && (forall i, j :: 0 <= i < j < |db.sas| && db.sas[i].inbound && db.sas[j].inbound ==> db.sas[i].spi != db.sas[j].spi)
  }

  ghost predicate Unique(sas: seq<Entry>) {
    forall i, j :: 0 <= i < j < |sas| ==> !Matches(sas[j], sas[i].spi, sas[i].src, sas[i].dst)
  }

  /** Inbound SAs are added with update set and a reserved SPI. */
  predicate Disciplined(db: Db, step: Step) {
    step.Add? && step.e.inbound ==> step.update && step.e.spi in db.reserved
  }

  ghost predicate DisciplinedRun(db: Db, steps: seq<Step>)
    decreases |steps|
  {
    steps != [] ==> Disciplined(db, steps[0]) && DisciplinedRun(Next(db, steps[0]), steps[1..])
  }

  /** Exactly which inbound additions keep the SPIs apart. */
  lemma AddKeepsSpisIff(db: Db, e: Entry, update: bool)
    requires SpisOk(db) && e.inbound
    ensures SpisOk(AfterAdd(db, e, update)) <==>
            || Installed(db.sas, e.spi, e.src, e.dst)
            || (Legal(e.spi) && !InboundSpi(db.sas, e.spi) && (update || e.spi !in db.reserved))
  {
    hide Legal;
    var db' := AfterAdd(db, e, update);
    if !Installed(db.sas, e.spi, e.src, e.dst) {
      assert db'.sas[0] == e;
      assert db'.sas[1..] == db.sas;
      assert forall i :: 0 <= i < |db.sas| ==> db'.sas[i + 1] == db.sas[i];
    }
  }

  lemma StepKeepsSpis(db: Db, step: Step)
    requires SpisOk(db) && Disciplined(db, step)
    ensures SpisOk(Next(db, step))
  {
    hide Legal, Candidate;
    match step {
      case GetSpi(draws) =>
        forall k | 0 <= k < |draws|
          ensures Legal(Candidate(draws[k]))
        {
          CandidateLegal(draws[k]);
        }
      case Add(e, update) =>
        if e.inbound {
          AddKeepsSpisIff(db, e, update);
        } else {
          assert Next(db, step).sas == db.sas || Next(db, step).sas == [e] + db.sas;
        }
      case Remove(i) =>
      case Rewrite(i, src, dst) =>
    }
  }

  /** Without updates an installed SA is identified by its SPI and addresses. */
  lemma StepKeepsUnique(db: Db, step: Step)
    requires Unique(db.sas) && !step.Rewrite?
    ensures Unique(Next(db, step).sas)
  {
    hide Legal, FirstFree, Candidate;
    if step.Add? {
      assert Next(db, step).sas == db.sas || Next(db, step).sas == [step.e] + db.sas;
    }
  }

  /** An update keeps that exactly when no other SA with the SPI has the new addresses. */
  lemma RewriteKeepsUniqueIff(db: Db, i: nat, src: seq<byte>, dst: seq<byte>)
    requires Unique(db.sas) && i < |db.sas|
    ensures Unique(Next(db, Rewrite(i, src, dst)).sas) <==>
            forall j :: 0 <= j < |db.sas| && j != i ==> !Matches(db.sas[j], db.sas[i].spi, src, dst)
  {
    var sas' := Next(db, Rewrite(i, src, dst)).sas;
    assert sas'[i] == db.sas[i].(src := src, dst := dst);
    if Unique(sas') {
      forall j | 0 <= j < |db.sas| && j != i
        ensures !Matches(db.sas[j], db.sas[i].spi, src, dst)
      {
        assert sas'[j] == db.sas[j];
        assert if i < j then !Matches(sas'[j], sas'[i].spi, sas'[i].src, sas'[i].dst)
               else !Matches(sas'[i], sas'[j].spi, sas'[j].src, sas'[j].dst);
      }
    }
  }

  /** Two SAs with one SPI between different hosts, and an update that makes them the same. */
  lemma UpdateMayCollide()
    ensures exists db, i: nat, src, dst :: SpisOk(db) && Unique(db.sas) && i < |db.sas| && !Unique(Next(db, Rewrite(i, src, dst)).sas)
  {
    var a, b := Entry(5, [1], [2], false), Entry(5, [1], [3], false);
    var db := Db([a, b], {});
    assert Unique(db.sas) && SpisOk(db);
    RewriteKeepsUniqueIff(db, 0, [1], [3]);
    assert Matches(db.sas[1], db.sas[0].spi, [1], [3]);
  }

  /** In every disciplined run reserved and installed inbound SPIs stay legal, disjoint and duplicate-free. */
  lemma {:induction false} RunKeepsSpis(db: Db, steps: seq<Step>)
    requires SpisOk(db) && DisciplinedRun(db, steps)
    ensures SpisOk(Exec(db, steps))
    decreases |steps|
  {
    if steps != [] {
      StepKeepsSpis(db, steps[0]);
      RunKeepsSpis(Next(db, steps[0]), steps[1..]);
    }
  }

  /** In every run without updates no two installed SAs share SPI, source and destination. */
  lemma {:induction false} RunKeepsUnique(db: Db, steps: seq<Step>)
    requires Unique(db.sas) && forall k :: 0 <= k < |steps| ==> !steps[k].Rewrite?
    ensures Unique(Exec(db, steps).sas)
    decreases |steps|
  {
    if steps != [] {
      StepKeepsUnique(db, steps[0]);
      RunKeepsUnique(Next(db, steps[0]), steps[1..]);
    }
  }

  /** A reservation lasts until it is used: whatever else happens, nobody is handed the same SPI. */
  lemma {:induction false} ReservationHolds(db: Db, steps: seq<Step>, spi: Word, draws: seq<Word>)
    requires spi in db.reserved
    requires forall k :: 0 <= k < |steps| && steps[k].Add? && steps[k].update ==> steps[k].e.spi != spi
    ensures spi in Exec(db, steps).reserved
    ensures FirstFree(Exec(db, steps), draws) != Some(spi)
    decreases |steps|
  {
    if steps != [] {
      ReservationHolds(Next(db, steps[0]), steps[1..], spi, draws);
    }
  }

  class Manager {
    var sas: seq<Entry>
    var reserved: set<Word>

    function Now(): Db
      reads this
    {
      Db(sas, reserved)
    }

    constructor ()
      ensures SpisOk(Now()) && Unique(sas) && sas == [] && reserved == {}
    {
      sas, reserved := [], {};
    }

    method FindFirst(spi: Word, src: seq<byte>, dst: seq<byte>) returns (i: nat)
      ensures i <= |sas| && forall k :: 0 <= k < i ==> !Matches(sas[k], spi, src, dst)
      ensures i < |sas| ==> Matches(sas[i], spi, src, dst)
    {
      i := 0;
      while i < |sas| && !Matches(sas[i], spi, src, dst)
        invariant i <= |sas| && forall k :: 0 <= k < i ==> !Matches(sas[k], spi, src, dst)
      {
        i := i + 1;
      }
    }

    method AllocateSpi(spi: Word) returns (ok: bool)
      modifies this`reserved
      ensures ok == old(Free(Now(), spi))
      ensures reserved == if ok then old(reserved) + {spi} else old(reserved)
    {
      if spi in reserved {
        return false;
      }
      for i := 0 to |sas|
        invariant forall k :: 0 <= k < i ==> !(sas[k].inbound && sas[k].spi == spi)
        invariant reserved == old(reserved)
      {
        if sas[i].spi == spi && sas[i].inbound {
          return false;
        }
      }
      reserved := reserved + {spi};
      return true;
    }

    /** The draws are the words the random source has left before it fails. */
    method Reserve(draws: seq<Word>) returns (spi: Option<Word>)
      modifies this`reserved
      ensures spi == old(FirstFree(Now(), draws)) && Now() == old(Next(Now(), GetSpi(draws)))
      ensures old(SpisOk(Now())) ==> SpisOk(Now())
      ensures spi.Some? ==> Legal(spi.value) && spi.value !in old(reserved) && !InboundSpi(sas, spi.value)
    {
      hide Candidate, Legal, SpisOk;
      var i := 0;
      while i < |draws|
        invariant i <= |draws| && reserved == old(reserved)
        invariant FirstFree(Now(), draws) == FirstFree(Now(), draws[i..])
      {
        var next := Candidate(draws[i]);
        var ok := AllocateSpi(next);
        if ok {
          CandidateLegal(draws[i]);
          assert old(FirstFree(Now(), draws[i..])) == Some(next);
          if old(SpisOk(Now())) {
            StepKeepsSpis(old(Now()), GetSpi(draws));
          }
          return Some(next);
        }
        assert draws[i..][1..] == draws[i + 1..];
        i := i + 1;
      }
      return None;
    }

    /** `created` says whether the SA itself could be made from its parameters. */
    method AddSa(e: Entry, update: bool, created: bool) returns (status: Status)
      modifies this
      ensures Now() == if created then old(Next(Now(), Add(e, update))) else old(Now())
      ensures status == if created && !Installed(old(sas), e.spi, e.src, e.dst) then Success else Failed
      ensures old(Unique(sas)) ==> Unique(sas)
      ensures old(SpisOk(Now()) && Disciplined(Now(), Add(e, update))) ==> SpisOk(Now())
    {
      hide Unique, SpisOk;
      if !created {
        return Failed;
      }
      if old(Unique(sas)) {
        StepKeepsUnique(old(Now()), Add(e, update));
      }
      if old(SpisOk(Now()) && Disciplined(Now(), Add(e, update))) {
        StepKeepsSpis(old(Now()), Add(e, update));
      }
      if update {
        reserved := reserved - {e.spi};
      }
      var i := FindFirst(e.spi, e.src, e.dst);
      if i < |sas| {
        return Failed;
      }
      sas := [e] + sas;
      return Success;
    }

    /** An entry found but awaiting deletion is left alone, and that is still reported as success. */
    method UpdateSa(spi: Word, src: seq<byte>, dst: seq<byte>, newSrc: seq<byte>, newDst: seq<byte>,
                    newEncap: bool, granted: bool) returns (status: Status)
      modifies this`sas
      ensures status == if !newEncap then NotSupported else if Installed(old(sas), spi, src, dst) then Success else Failed
      ensures status != Success || !granted ==> sas == old(sas)
      ensures status == Success && granted ==> exists i ::
                && 0 <= i < |old(sas)| && Matches(old(sas)[i], spi, src, dst)
                && (forall k :: 0 <= k < i ==> !Matches(old(sas)[k], spi, src, dst))
                && Now() == Next(old(Now()), Rewrite(i, newSrc, newDst))
      ensures old(SpisOk(Now())) ==> SpisOk(Now())
    {
      if !newEncap {
        return NotSupported;
      }
      var i := FindFirst(spi, src, dst);
      if i == |sas| {
        return Failed;
      }
      if granted {
        ghost var was := Now();
        sas := sas[i := sas[i].(src := newSrc, dst := newDst)];
        assert Now() == Next(was, Rewrite(i, newSrc, newDst));
      }
      return Success;
    }

    /** Deletes the first SA that matches, unless another thread is already at it. */
    method DelSa(spi: Word, src: seq<byte>, dst: seq<byte>, granted: bool) returns (status: Status)
      modifies this`sas
      ensures status == if Installed(old(sas), spi, src, dst) && granted then Success else Failed
      ensures status == Failed ==> sas == old(sas)
      ensures status == Success ==> exists i ::
                && 0 <= i < |old(sas)| && Matches(old(sas)[i], spi, src, dst)
                && (forall k :: 0 <= k < i ==> !Matches(old(sas)[k], spi, src, dst))
                && Now() == Next(old(Now()), Remove(i))
      ensures old(Unique(sas)) ==> Unique(sas) && (status == Success ==> !Installed(sas, spi, src, dst))
      ensures old(SpisOk(Now())) ==> SpisOk(Now())
    {
      var i := FindFirst(spi, src, dst);
      if i == |sas| || !granted {
        return Failed;
      }
      ghost var was := Now();
      sas := sas[..i] + sas[i + 1..];
      assert Now() == Next(was, Remove(i));
      return Success;
    }
  }

  // ----- what the steps do

  /** The swap reverses the four bytes. */
  lemma HtonlBytes(x: Word)
    ensures var b := U32(x); U32(Htonl(x)) == [b[3], b[2], b[1], b[0]]
  {
    hide U32;
    var b := U32(x);
    AssembleBytes([b[3], b[2], b[1], b[0]]);
  }

  /** A candidate is the draw with the bit of value 256 set, in network byte order. */
  lemma CandidateIs(draw: Word)
    ensures var x := Htonl(Candidate(draw));
            x / 256 % 2 == 1 && x == if draw / 256 % 2 == 1 then draw else draw + 256
  {
    HtonlTwice(OrBit8(draw));
    hide Htonl;
  }

  /** An addition gives up the reservation it uses, and installs the SA in front unless it is installed. */
  lemma AddInstalls(db: Db, e: Entry, update: bool)
    ensures var db' := Next(db, Add(e, update));
            && db'.reserved == (if update then db.reserved - {e.spi} else db.reserved)
            && if exists i :: 0 <= i < |db.sas| && db.sas[i].spi == e.spi && db.sas[i].src == e.src && db.sas[i].dst == e.dst
               then db'.sas == db.sas else db'.sas == [e] + db.sas
  {
    if Installed(db.sas, e.spi, e.src, e.dst) {
      var i :| 0 <= i < |db.sas| && Matches(db.sas[i], e.spi, e.src, e.dst);
      assert db.sas[i].spi == e.spi;
    }
  }

  /** Removing takes one entry out, and a rewrite changes the addresses of one. */
  lemma OneChanges(db: Db, i: nat, src: seq<byte>, dst: seq<byte>)
    requires i < |db.sas|
    ensures var db' := Next(db, Remove(i));
            db'.reserved == db.reserved && multiset(db'.sas) + multiset{db.sas[i]} == multiset(db.sas)
    ensures var db' := Next(db, Rewrite(i, src, dst));
            && db'.reserved == db.reserved && |db'.sas| == |db.sas|
            && db'.sas[i] == Entry(db.sas[i].spi, src, dst, db.sas[i].inbound)
            && forall j :: 0 <= j < |db.sas| && j != i ==> db'.sas[j] == db.sas[j]
  {
    assert db.sas == db.sas[..i] + [db.sas[i]] + db.sas[i + 1..];
  }

  /** An SPI handed out is handed out to nobody else until it is installed, whatever happens in between. */
  lemma NeverHandedOutTwice(db: Db, draws: seq<Word>, steps: seq<Step>, draws': seq<Word>)
    requires FirstFree(db, draws).Some?
    requires forall k :: 0 <= k < |steps| && steps[k].Add? && steps[k].update ==> steps[k].e.spi != FirstFree(db, draws).value
    ensures FirstFree(Exec(Next(db, GetSpi(draws)), steps), draws') != FirstFree(db, draws)
  {
    hide FirstFree;
    ReservationHolds(Next(db, GetSpi(draws)), steps, FirstFree(db, draws).value, draws');
  }
}
