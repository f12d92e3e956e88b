/**
 * The locking and removal protocol of the IPsec SA manager, as a state machine
 * over any number of threads and entries. The manager's mutex makes everything
 * between two condition-variable waits one atomic step, so a thread is always
 * found in one of the places below. Which entry a search returns is left open:
 * every outcome of the list searches is a possible step.
 */
module SaLocking {

  type Tid = nat
  type Eid = nat

  datatype Entry = Entry(locked: bool, waiting: nat, awaits: bool)

  /** A checkout keeps the entry locked; update and query let go of it in the same step. */
  datatype Use = Checkout | Touch

  datatype Removal = Delete | Expire | Flush

  datatype Pc =
    | Idle
    /** blocked in wait_for_entry */
    | Waiting(e: Eid, use: Use, woken: bool)
    | Holding(e: Eid)
    /** blocked in the first loop of wait_remove_entry */
    | AwaitsUnlock(e: Eid, why: Removal, woken: bool)
    /** blocked in the second loop of wait_remove_entry */
    | AwaitsDrain(e: Eid, why: Removal, woken: bool)
    /** flushing, between two entries */
    | Flushing
    /** deleting: entry out of the list, mutex released, not destroyed yet */
    | Unlinked(e: Eid)

  datatype State = State(entries: map<Eid, Entry>, listed: set<Eid>, pcs: map<Tid, Pc>, destroyed: seq<Eid>)

  const INITIAL: State := State(map[], {}, map[], [])

  function At(s: State, t: Tid): Pc {
    if t in s.pcs then s.pcs[t] else Idle
  }

  predicate Blocked(pc: Pc, e: Eid) {
    (pc.Waiting? || pc.AwaitsUnlock? || pc.AwaitsDrain?) && pc.e == e && !pc.woken
  }

  /** Whom a signal may wake: any one thread blocked on the entry, nobody only if there is none. */
  datatype Woken = Nobody | Somebody(t: Tid)

  ghost predicate MayWake(pcs: map<Tid, Pc>, e: Eid, w: Woken) {
    match w
    case Nobody => forall t :: t in pcs ==> !Blocked(pcs[t], e)
    case Somebody(t) => t in pcs && Blocked(pcs[t], e)
  }

  function Wake(pc: Pc): Pc {
    if pc.Waiting? || pc.AwaitsUnlock? || pc.AwaitsDrain? then pc.(woken := true) else pc
  }

  function Signal(pcs: map<Tid, Pc>, w: Woken): map<Tid, Pc> {
    if w.Somebody? && w.t in pcs then pcs[w.t := Wake(pcs[w.t])] else pcs
  }

  function Broadcast(pcs: map<Tid, Pc>, e: Eid): map<Tid, Pc> {
    map t | t in pcs :: if Blocked(pcs[t], e) then Wake(pcs[t]) else pcs[t]
  }

  /** The loop of wait_for_entry and what follows it, for a thread that is not counted as waiting. */
  function WaitForEntry(s: State, t: Tid, e: Eid, use: Use, w: Woken): State
    requires e in s.entries
  {
    var x := s.entries[e];
    if x.locked && !x.awaits then
      s.(entries := s.entries[e := x.(waiting := x.waiting + 1)], pcs := s.pcs[t := Waiting(e, use, false)])
    else if x.awaits then
      s.(pcs := Signal(s.pcs[t := Idle], w))
    else if use == Checkout then
      s.(entries := s.entries[e := x.(locked := true)], pcs := s.pcs[t := Holding(e)])
    else
      s.(entries := s.entries[e := x.(locked := false)], pcs := Signal(s.pcs[t := Idle], w))
  }

  /** Where a remover goes once the entry is its own to take out of the list. */
  function Unlink(s: State, t: Tid, e: Eid, why: Removal): State {
    match why
    case Delete => s.(listed := s.listed - {e}, pcs := s.pcs[t := Unlinked(e)])
    case Expire => s.(listed := s.listed - {e}, entries := s.entries - {e}, pcs := s.pcs[t := Idle],
                      destroyed := s.destroyed + [e])
    case Flush => s.(listed := s.listed - {e}, entries := s.entries - {e}, pcs := s.pcs[t := Flushing],
                     destroyed := s.destroyed + [e])
  }

  /** The second loop of wait_remove_entry. */
  function Drain(s: State, t: Tid, e: Eid, why: Removal): State
    requires e in s.entries
  {
    if s.entries[e].waiting > 0 then s.(pcs := Broadcast(s.pcs, e)[t := AwaitsDrain(e, why, false)])
    else Unlink(s, t, e, why)
  }

  /** The first loop of wait_remove_entry, falling through to the second. */
  function AwaitUnlock(s: State, t: Tid, e: Eid, why: Removal): State
    requires e in s.entries
  {
    if s.entries[e].locked then s.(pcs := s.pcs[t := AwaitsUnlock(e, why, false)])
    else Drain(s, t, e, why)
  }

  datatype Action =
    | Add(e: Eid)
    | Enter(t: Tid, e: Eid, use: Use, w: Woken)
    | Resume(t: Tid, w: Woken)
    | Checkin(t: Tid, w: Woken)
    | Remove(t: Tid, e: Eid, why: Removal)
    | ResumeRemover(t: Tid)
    | Destroy(t: Tid)
    | BeginFlush(t: Tid)
    | EndFlush(t: Tid)
    | Spurious(t: Tid)

  ghost predicate Enabled(s: State, a: Action) {
    match a
    case Add(e) => e !in s.entries && e !in s.destroyed
    case Enter(t, e, use, w) => At(s, t).Idle? && e in s.listed && e in s.entries && MayWake(s.pcs[t := Idle], e, w)
    case Resume(t, w) =>
      var pc := At(s, t);
      pc.Waiting? && pc.woken && pc.e in s.entries && MayWake(s.pcs[t := Idle], pc.e, w)
    case Checkin(t, w) =>
      var pc := At(s, t);
      pc.Holding? && pc.e in s.entries && MayWake(s.pcs[t := Idle], pc.e, w)
    case Remove(t, e, why) => e in s.listed && e in s.entries && At(s, t) == if why == Flush then Flushing else Idle
    case ResumeRemover(t) =>
      var pc := At(s, t);
      (pc.AwaitsUnlock? || pc.AwaitsDrain?) && pc.woken && pc.e in s.entries
    case Destroy(t) => At(s, t).Unlinked?
    case BeginFlush(t) => At(s, t).Idle?
    case EndFlush(t) => At(s, t).Flushing?
    case Spurious(t) => t in s.pcs
  }

  ghost function Apply(s: State, a: Action): State
    requires Enabled(s, a)
  {
    match a
    case Add(e) => s.(entries := s.entries[e := Entry(false, 0, false)], listed := s.listed + {e})
    case Enter(t, e, use, w) => WaitForEntry(s, t, e, use, w)
    case Resume(t, w) =>
      var pc := At(s, t);
      var x := s.entries[pc.e];
      var fewer := if x.waiting > 0 then x.waiting - 1 else 0;
      WaitForEntry(s.(entries := s.entries[pc.e := x.(waiting := fewer)], pcs := s.pcs[t := Idle]), t, pc.e, pc.use, w)
    case Checkin(t, w) =>
      var e := At(s, t).e;
      s.(entries := s.entries[e := s.entries[e].(locked := false)], pcs := Signal(s.pcs[t := Idle], w))
    case Remove(t, e, why) =>
      var x := s.entries[e];
      if x.awaits then s else AwaitUnlock(s.(entries := s.entries[e := x.(awaits := true)]), t, e, why)
    case ResumeRemover(t) =>
      var pc := At(s, t);
      if pc.AwaitsUnlock? then AwaitUnlock(s, t, pc.e, pc.why) else Drain(s, t, pc.e, pc.why)
    case Destroy(t) =>
      var e := At(s, t).e;
      s.(entries := s.entries - {e}, pcs := s.pcs[t := Idle], destroyed := s.destroyed + [e])
    case BeginFlush(t) => s.(pcs := s.pcs[t := Flushing])
    case EndFlush(t) => s.(pcs := s.pcs[t := Idle])
    case Spurious(t) => s.(pcs := s.pcs[t := Wake(s.pcs[t])])
  }

  /** A run: each action enabled where it is taken. */
  ghost predicate ValidRun(s: State, run: seq<Action>)
    decreases |run|
  {
    run == [] || (Enabled(s, run[0]) && ValidRun(Apply(s, run[0]), run[1..]))
  }

  ghost function Exec(s: State, run: seq<Action>): State
    requires ValidRun(s, run)
    decreases |run|
  {
    if run == [] then s else Exec(Apply(s, run[0]), run[1..])
  }

  // ----- one entry and the threads concerned with it

  /** The thread's place concerns the entry. */
  predicate About(pc: Pc, e: Eid) {
    !pc.Idle? && !pc.Flushing? && pc.e == e
  }

  datatype Local = Local(x: Entry, listed: bool, ts: map<Tid, Pc>)

  function Threads(pcs: map<Tid, Pc>, e: Eid): map<Tid, Pc> {
    map t | t in pcs && About(pcs[t], e) :: pcs[t]
  }

  function Project(s: State, e: Eid): Local
    requires e in s.entries
  {
    Local(s.entries[e], e in s.listed, Threads(s.pcs, e))
  }

  function Waiters(ts: map<Tid, Pc>): set<Tid> {
    set t | t in ts && ts[t].Waiting?
  }

  predicate Asleep(pc: Pc) {
    (pc.Waiting? || pc.AwaitsUnlock? || pc.AwaitsDrain?) && !pc.woken
  }

  predicate Remover(pc: Pc) {
    pc.AwaitsUnlock? || pc.AwaitsDrain? || pc.Unlinked?
  }

  /** Nobody else may hold or remove what one thread holds or removes. */
  ghost predicate Exclusive(ts: map<Tid, Pc>) {
    && (forall t, u :: t in ts && u in ts && ts[t].Holding? && ts[u].Holding? ==> t == u)
    && (forall t, u :: t in ts && u in ts && Remover(ts[t]) && Remover(ts[u]) ==> t == u)
  }

  predicate Awake(pc: Pc) {
    (pc.Waiting? || pc.AwaitsUnlock? || pc.AwaitsDrain?) && pc.woken
  }

  ghost predicate SomeWaiterWoken(ts: map<Tid, Pc>) {
    exists u :: u in ts && ts[u].Waiting? && ts[u].woken
  }

  ghost predicate SomeWoken(ts: map<Tid, Pc>) {
    exists u :: u in ts && Awake(ts[u])
  }

  /** While anybody sleeps on an unlocked entry, some thread woken on it will pass the signal on. */
  ghost predicate NoLostWakeup(l: Local) {
    forall t :: t in l.ts && Asleep(l.ts[t]) && !l.x.locked ==> SomeWoken(l.ts)
  }

  ghost predicate Placed(l: Local, pc: Pc) {
    match pc
    case Waiting(_, _, _) => true
    case Holding(_) => l.x.locked
    case AwaitsUnlock(_, _, _) => l.x.awaits && l.listed
    case AwaitsDrain(_, _, _) =>
      l.x.awaits && l.listed && !l.x.locked && forall u :: u in l.ts && l.ts[u].Waiting? ==> l.ts[u].woken
    case Unlinked(_) => l.x.awaits && !l.listed
    case _ => false
  }

  /** The invariant of one entry, but for the pending wake-up. */
  ghost predicate LocalCore(l: Local) {
    && l.x.waiting == |Waiters(l.ts)|
    && (l.x.locked ==> SomeHolder(l.ts))
    && (l.x.awaits ==> SomeRemover(l.ts))
    && Exclusive(l.ts)
    && (!l.listed ==> l.x.awaits && !l.x.locked && l.x.waiting == 0)
    && (forall t :: t in l.ts ==> Placed(l, l.ts[t]))
  }

  ghost predicate LocalInv(l: Local) {
    LocalCore(l) && NoLostWakeup(l)
  }

  /** Whom a signal on the entry may wake, seen locally. */
  ghost predicate MayWakeHere(ts: map<Tid, Pc>, w: Woken) {
    match w
    case Nobody => forall t :: t in ts ==> !Asleep(ts[t])
    case Somebody(t) => t in ts && Asleep(ts[t])
  }

  lemma WaitersGone(ts: map<Tid, Pc>, ts': map<Tid, Pc>, t: Tid)
    requires t in ts && ts[t].Waiting? && !(t in ts' && ts'[t].Waiting?)
    requires forall u :: u != t ==> ((u in ts && ts[u].Waiting?) <==> (u in ts' && ts'[u].Waiting?))
    ensures |Waiters(ts)| == |Waiters(ts')| + 1
  {
    assert Waiters(ts) == Waiters(ts') + {t};
  }

  lemma WaitersSame(ts: map<Tid, Pc>, ts': map<Tid, Pc>)
    requires forall u :: (u in ts && ts[u].Waiting?) <==> (u in ts' && ts'[u].Waiting?)
    ensures Waiters(ts) == Waiters(ts')
  {
  }

  /** A waiter goes to sleep on a locked entry nobody is removing. */
  lemma SleepKeeps(l: Local, t: Tid, pc: Pc)
    requires LocalCore(l) && l.x.locked && !l.x.awaits && pc.Waiting? && t !in l.ts
    ensures LocalInv(Local(l.x.(waiting := l.x.waiting + 1), l.listed, l.ts[t := pc]))
  {
    var ts' := l.ts[t := pc];
    WaitersGone(ts', l.ts, t);
    var h :| h in l.ts && l.ts[h].Holding?;
    assert h in ts' && ts'[h].Holding?;
    assert forall u :: u in ts' ==> u == t || (u in l.ts && ts'[u] == l.ts[u]);
  }

  function SignalHere(ts: map<Tid, Pc>, w: Woken): map<Tid, Pc> {
    if w.Somebody? && w.t in ts then ts[w.t := Wake(ts[w.t])] else ts
  }

  /** Waking a thread changes nothing but who is asleep. */
  lemma WakeKeepsCore(l: Local, t: Tid)
    requires LocalCore(l) && t in l.ts
    ensures LocalCore(l.(ts := l.ts[t := Wake(l.ts[t])]))
  {
    hide Placed, Exclusive;
    var ts' := l.ts[t := Wake(l.ts[t])];
    WaitersSame(l.ts, ts');
    HoldersAndRemovers(l.ts, ts');
    WakeExclusive(l.ts, t);
    forall u | u in ts'
      ensures Placed(l.(ts := ts'), ts'[u])
    {
      WakePlaced(l, t, u);
    }
  }

  lemma WakeExclusive(ts: map<Tid, Pc>, t: Tid)
    requires Exclusive(ts) && t in ts
    ensures Exclusive(ts[t := Wake(ts[t])])
  {
    SameRolesExclusive(ts, ts[t := Wake(ts[t])]);
  }

  lemma WakePlaced(l: Local, t: Tid, u: Tid)
    requires t in l.ts && u in l.ts && Placed(l, l.ts[u])
    ensures Placed(l.(ts := l.ts[t := Wake(l.ts[t])]), l.ts[t := Wake(l.ts[t])][u])
  {
  }

  ghost predicate SomeHolder(ts: map<Tid, Pc>) {
    exists t :: t in ts && ts[t].Holding?
  }

  ghost predicate SomeRemover(ts: map<Tid, Pc>) {
    exists t :: t in ts && Remover(ts[t])
  }

  /** Holders and removers that stay keep the entry's flags accounted for. */
  lemma HoldersAndRemovers(ts: map<Tid, Pc>, ts': map<Tid, Pc>)
    ensures SomeHolder(ts) && (forall u :: u in ts && ts[u].Holding? ==> u in ts' && ts'[u].Holding?) ==> SomeHolder(ts')
    ensures SomeRemover(ts) && (forall u :: u in ts && Remover(ts[u]) ==> u in ts' && Remover(ts'[u])) ==> SomeRemover(ts')
  {
    hide Remover;
    if t :| t in ts && ts[t].Holding? {
      assert t in ts' && ts'[t].Holding? ==> SomeHolder(ts');
    }
    if t :| t in ts && Remover(ts[t]) {
      assert t in ts' && Remover(ts'[t]) ==> SomeRemover(ts');
    }
  }

  /** Nobody becomes a holder or a remover. */
  lemma SameRolesExclusive(ts: map<Tid, Pc>, ts': map<Tid, Pc>)
    requires Exclusive(ts)
    requires forall u :: u in ts' && ts'[u].Holding? ==> u in ts && ts[u].Holding?
    requires forall u :: u in ts' && Remover(ts'[u]) ==> u in ts && Remover(ts[u])
    ensures Exclusive(ts')
  {
    hide Remover;
  }

  /** A signal always re-establishes the wake-up guarantee: it reaches the remover or a waiter. */
  lemma SignalRestores(l: Local, w: Woken)
    requires LocalCore(l) && MayWakeHere(l.ts, w)
    ensures LocalInv(l.(ts := SignalHere(l.ts, w)))
  {
    hide Placed;
    var l' := l.(ts := SignalHere(l.ts, w));
    if w.Somebody? {
      WakeKeepsCore(l, w.t);
    }
    hide LocalCore;
    forall t | t in l'.ts && Asleep(l'.ts[t])
      ensures SomeWoken(l'.ts)
    {
      assert t in l.ts && Asleep(l.ts[t]);
      assert w.Somebody? && w.t in l'.ts && Awake(l'.ts[w.t]);
    }
  }

  /** A waiter that finds the entry awaiting deletion, or is done with it at once, stops waiting. */
  lemma WaiterLeavesKeeps(l: Local, t: Tid)
    requires LocalCore(l) && t in l.ts && l.ts[t].Waiting?
    ensures l.x.waiting > 0
    ensures LocalCore(Local(l.x.(waiting := l.x.waiting - 1), l.listed, l.ts - {t}))
  {
    var ts' := l.ts - {t};
    WaitersGone(l.ts, ts', t);
    if l.x.locked {
      var h :| h in l.ts && l.ts[h].Holding?;
      assert h in ts' && ts'[h].Holding?;
    }
    if l.x.awaits {
      var r :| r in l.ts && Remover(l.ts[r]);
      assert r in ts' && Remover(ts'[r]);
    }
  }

  /** A thread takes a free entry nobody is removing. */
  lemma TakeKeeps(l: Local, t: Tid, e: Eid)
    requires LocalCore(l) && !l.x.locked && !l.x.awaits && l.listed && t !in l.ts
    ensures LocalInv(Local(l.x.(locked := true), l.listed, l.ts[t := Holding(e)]))
  {
    var ts' := l.ts[t := Holding(e)];
    WaitersSame(l.ts, ts');
    assert t in ts' && ts'[t].Holding?;
  }

  lemma HolderLeavesKeeps(l: Local, t: Tid)
    requires LocalCore(l) && t in l.ts && l.ts[t].Holding?
    ensures LocalCore(Local(l.x.(locked := false), l.listed, l.ts - {t}))
  {
    var ts' := l.ts - {t};
    WaitersSame(l.ts, ts');
    if l.x.awaits {
      var r :| r in l.ts && Remover(l.ts[r]);
      assert r in ts' && Remover(ts'[r]);
    }
  }

  /** The remover (a newcomer, or the one already there) goes to sleep behind the holder. */
  lemma AwaitUnlockKeeps(l: Local, t: Tid, pc: Pc)
    requires LocalCore(l) && l.x.locked && l.listed && pc.AwaitsUnlock?
    requires if l.x.awaits then t in l.ts && Remover(l.ts[t]) else t !in l.ts
    ensures LocalInv(Local(l.x.(awaits := true), l.listed, l.ts[t := pc]))
  {
    var ts' := l.ts[t := pc];
    WaitersSame(l.ts, ts');
    var h :| h in l.ts && l.ts[h].Holding?;
    assert h in ts' && ts'[h].Holding?;
    assert t in ts' && Remover(ts'[t]);
  }

  function BroadcastHere(ts: map<Tid, Pc>): map<Tid, Pc> {
    map t | t in ts :: Wake(ts[t])
  }

  /** The remover wakes every waiter and goes to sleep until they are gone. */
  lemma DrainKeeps(l: Local, t: Tid, pc: Pc)
    requires LocalCore(l) && !l.x.locked && l.listed && l.x.waiting > 0 && pc.AwaitsDrain? && !pc.woken
    requires if l.x.awaits then t in l.ts && Remover(l.ts[t]) else t !in l.ts
    ensures LocalInv(Local(l.x.(awaits := true), l.listed, BroadcastHere(l.ts)[t := pc]))
  {
    hide Placed, Exclusive, NoLostWakeup;
    var ts' := BroadcastHere(l.ts)[t := pc];
    var l' := Local(l.x.(awaits := true), l.listed, ts');
    WaitersSame(l.ts, ts');
    assert t in ts' && Remover(ts'[t]);
    DrainExclusive(l, t, pc);
    forall u | u in ts'
      ensures Placed(l', ts'[u])
    {
      assert u != t ==> Placed(l, l.ts[u]);
      DrainPlaced(l, t, pc, u);
    }
    DrainWakes(l, t, pc);
  }

  lemma DrainExclusive(l: Local, t: Tid, pc: Pc)
    requires LocalCore(l) && pc.AwaitsDrain? && (if l.x.awaits then t in l.ts && Remover(l.ts[t]) else t !in l.ts)
    ensures Exclusive(BroadcastHere(l.ts)[t := pc])
  {
    var ts' := BroadcastHere(l.ts)[t := pc];
    forall u | u in ts' && Remover(ts'[u])
      ensures u == t
    {
      assert u != t ==> u in l.ts && Remover(l.ts[u]);
      assert u in l.ts ==> Placed(l, l.ts[u]);
    }
  }

  lemma DrainPlaced(l: Local, t: Tid, pc: Pc, u: Tid)
    requires !l.x.locked && l.listed && pc.AwaitsDrain?
    requires u in BroadcastHere(l.ts)[t := pc] && (u != t ==> Placed(l, l.ts[u]))
    ensures Placed(Local(l.x.(awaits := true), l.listed, BroadcastHere(l.ts)[t := pc]), BroadcastHere(l.ts)[t := pc][u])
  {
  }

  lemma DrainWakes(l: Local, t: Tid, pc: Pc)
    requires |Waiters(l.ts)| > 0 && (t in l.ts ==> Remover(l.ts[t]))
    ensures NoLostWakeup(Local(l.x.(awaits := true), l.listed, BroadcastHere(l.ts)[t := pc]))
  {
    var ts' := BroadcastHere(l.ts)[t := pc];
    var u :| u in Waiters(l.ts);
    assert u in ts' && Awake(ts'[u]);
  }

  /** With no holder and no waiter the remover is the only thread left, and takes the entry out. */
  lemma UnlinkKeeps(l: Local, t: Tid, e: Eid)
    requires LocalCore(l) && !l.x.locked && l.listed && l.x.waiting == 0
    requires if l.x.awaits then t in l.ts && Remover(l.ts[t]) else t !in l.ts
    ensures l.ts.Keys <= {t}
    ensures LocalInv(Local(l.x.(awaits := true), false, l.ts[t := Unlinked(e)]))
  {
    forall u | u in l.ts
      ensures u == t
    {
      assert Placed(l, l.ts[u]);
      assert l.ts[u].Waiting? ==> u in Waiters(l.ts);
    }
    var ts' := l.ts[t := Unlinked(e)];
    WaitersSame(l.ts, ts');
    assert t in ts' && Remover(ts'[t]);
  }

  lemma SpuriousKeeps(l: Local, t: Tid)
    requires LocalInv(l) && t in l.ts
    ensures LocalInv(l.(ts := l.ts[t := Wake(l.ts[t])]))
  {
    var ts' := l.ts[t := Wake(l.ts[t])];
    WakeKeepsCore(l, t);
    hide LocalCore;
    if SomeWoken(l.ts) {
      var u :| u in l.ts && Awake(l.ts[u]);
      assert u in ts' && Awake(ts'[u]);
    }
    assert forall u :: u in ts' && Asleep(ts'[u]) ==> u in l.ts && Asleep(l.ts[u]) && ts'[u] == l.ts[u];
  }

  // ----- every entry at once

  /** The invariant, but for the pending wake-up on one entry. */
  ghost predicate InvBut(s: State, e0: Eid) {
    && s.listed <= s.entries.Keys
    && (forall e :: e in s.entries ==>
          e !in s.destroyed && LocalCore(Project(s, e)) && (e != e0 ==> NoLostWakeup(Project(s, e))))
    && (forall e :: e !in s.entries ==> Threads(s.pcs, e) == map[])
    && (forall i, j :: 0 <= i < j < |s.destroyed| ==> s.destroyed[i] != s.destroyed[j])
  }

  ghost predicate Inv(s: State) {
    && s.listed <= s.entries.Keys
    && (forall e :: e in s.entries ==> e !in s.destroyed && LocalInv(Project(s, e)))
    && (forall e :: e !in s.entries ==> Threads(s.pcs, e) == map[])
    && (forall i, j :: 0 <= i < j < |s.destroyed| ==> s.destroyed[i] != s.destroyed[j])
  }

  lemma InvIsEverywhere(s: State, e0: Eid)
    ensures Inv(s) <==> InvBut(s, e0) && (e0 in s.entries ==> NoLostWakeup(Project(s, e0)))
  {
  }

  /** Seen from entry e, nothing happened. */
  ghost predicate Untouched(s: State, s': State, e: Eid) {
    && (e in s.entries <==> e in s'.entries)
    && (e in s.listed <==> e in s'.listed)
    && (e in s.entries ==> s.entries[e] == s'.entries[e])
    && Threads(s.pcs, e) == Threads(s'.pcs, e)
    && (e in s.destroyed <==> e in s'.destroyed)
  }

  /** A step that concerns one entry keeps the invariant if it keeps that entry's. */
  lemma Compose(s: State, s': State, e0: Eid)
    requires InvBut(s, e0) && s'.listed <= s'.entries.Keys
    requires forall e :: e != e0 ==> Untouched(s, s', e)
    requires e0 in s'.entries ==> e0 !in s'.destroyed && LocalInv(Project(s', e0))
    requires e0 !in s'.entries ==> Threads(s'.pcs, e0) == map[]
    requires s'.destroyed == s.destroyed || (s'.destroyed == s.destroyed + [e0] && e0 !in s.destroyed)
    ensures Inv(s')
  {
    InvIsEverywhere(s', e0);
    forall e
      ensures e in s'.entries ==> e !in s'.destroyed && LocalCore(Project(s', e))
      ensures e in s'.entries && e != e0 ==> NoLostWakeup(Project(s', e))
      ensures e !in s'.entries ==> Threads(s'.pcs, e) == map[]
    {
      if e != e0 {
        assert Untouched(s, s', e);
      }
    }
  }

  lemma ThreadsSet(pcs: map<Tid, Pc>, t: Tid, pc: Pc, e: Eid)
    ensures Threads(pcs[t := pc], e) == if About(pc, e) then Threads(pcs, e)[t := pc] else Threads(pcs, e) - {t}
    ensures !(t in pcs && About(pcs[t], e)) && !About(pc, e) ==> Threads(pcs[t := pc], e) == Threads(pcs, e)
    ensures t in pcs && !About(pcs[t], e) ==> t !in Threads(pcs, e)
  {
  }

  lemma ThreadsSignal(pcs: map<Tid, Pc>, w: Woken, e0: Eid, e: Eid)
    requires MayWake(pcs, e0, w)
    ensures Threads(Signal(pcs, w), e) == if e == e0 then SignalHere(Threads(pcs, e), w) else Threads(pcs, e)
    ensures e == e0 ==> MayWakeHere(Threads(pcs, e), w)
  {
    if w.Somebody? {
      ThreadsSet(pcs, w.t, Wake(pcs[w.t]), e);
    }
  }

  lemma ThreadsBroadcast(pcs: map<Tid, Pc>, e0: Eid, e: Eid)
    ensures Threads(Broadcast(pcs, e0), e) == if e == e0 then BroadcastHere(Threads(pcs, e)) else Threads(pcs, e)
  {
  }

  lemma NotConcerned(s: State, t: Tid, e: Eid)
    requires At(s, t).Idle? || At(s, t).Flushing?
    ensures t !in Threads(s.pcs, e)
  {
  }

  lemma WaitForEntryKeeps(s: State, t: Tid, e0: Eid, use: Use, w: Woken)
    requires InvBut(s, e0) && At(s, t).Idle? && e0 in s.listed && MayWake(s.pcs[t := Idle], e0, w)
    ensures Inv(WaitForEntry(s, t, e0, use, w))
  {
    hide LocalCore, NoLostWakeup;
    var s' := WaitForEntry(s, t, e0, use, w);
    var l := Project(s, e0);
    NotConcerned(s, t, e0);
    forall e
      ensures e != e0 ==> Untouched(s, s', e)
      ensures Threads(s.pcs[t := Idle], e) == Threads(s.pcs, e)
    {
      NotConcerned(s, t, e);
      ThreadsSet(s.pcs, t, Idle, e);
      ThreadsSet(s.pcs, t, Holding(e0), e);
      ThreadsSet(s.pcs, t, Waiting(e0, use, false), e);
      ThreadsSignal(s.pcs[t := Idle], w, e0, e);
    }
    ThreadsSet(s.pcs, t, Holding(e0), e0);
    ThreadsSet(s.pcs, t, Waiting(e0, use, false), e0);
    ThreadsSignal(s.pcs[t := Idle], w, e0, e0);
    if l.x.locked && !l.x.awaits {
      SleepKeeps(l, t, Waiting(e0, use, false));
    } else if !l.x.awaits && use == Checkout {
      TakeKeeps(l, t, e0);
    } else {
      SignalRestores(l, w);
    }
    Compose(s, s', e0);
  }

  lemma ResumeKeeps(s: State, t: Tid, w: Woken)
    requires Inv(s) && Enabled(s, Resume(t, w))
    ensures Inv(Apply(s, Resume(t, w)))
    ensures s.entries[At(s, t).e].waiting > 0
  {
    hide LocalCore, NoLostWakeup;
    var e0 := At(s, t).e;
    var l := Project(s, e0);
    InvIsEverywhere(s, e0);
    WaiterLeavesKeeps(l, t);
    var x := s.entries[e0];
    var s1 := s.(entries := s.entries[e0 := x.(waiting := x.waiting - 1)], pcs := s.pcs[t := Idle]);
    forall e
      ensures Threads(s1.pcs, e) == if e == e0 then l.ts - {t} else Threads(s.pcs, e)
    {
      ThreadsSet(s.pcs, t, Idle, e);
    }
    assert WaiterListed(l, t) by { WaitersAreListed(l, t); }
    forall e | e in s1.entries
      ensures e !in s1.destroyed && LocalCore(Project(s1, e)) && (e != e0 ==> NoLostWakeup(Project(s1, e)))
    {
      if e == e0 {
        assert Project(s1, e) == Local(l.x.(waiting := l.x.waiting - 1), l.listed, l.ts - {t});
      } else {
        assert Project(s1, e) == Project(s, e);
      }
    }
    assert s1.pcs[t := Idle] == s1.pcs;
    WaitForEntryKeeps(s1, t, e0, At(s, t).use, w);
  }

  predicate WaiterListed(l: Local, t: Tid) {
    t in l.ts && l.ts[t].Waiting? ==> l.listed
  }

  lemma WaitersAreListed(l: Local, t: Tid)
    requires LocalCore(l)
    ensures WaiterListed(l, t)
  {
    assert t in l.ts && l.ts[t].Waiting? ==> t in Waiters(l.ts);
  }

  lemma CheckinKeeps(s: State, t: Tid, w: Woken)
    requires Inv(s) && Enabled(s, Checkin(t, w))
    ensures Inv(Apply(s, Checkin(t, w)))
  {
    hide LocalCore, NoLostWakeup;
    var e0 := At(s, t).e;
    var s' := Apply(s, Checkin(t, w));
    var l := Project(s, e0);
    InvIsEverywhere(s, e0);
    HolderLeavesKeeps(l, t);
    forall e
      ensures e != e0 ==> Untouched(s, s', e)
      ensures Threads(s.pcs[t := Idle], e) == if e == e0 then l.ts - {t} else Threads(s.pcs, e)
    {
      ThreadsSet(s.pcs, t, Idle, e);
      ThreadsSignal(s.pcs[t := Idle], w, e0, e);
    }
    ThreadsSignal(s.pcs[t := Idle], w, e0, e0);
    SignalRestores(Local(l.x.(locked := false), l.listed, l.ts - {t}), w);
    Compose(s, s', e0);
  }

  /** The thread removes e0 already, or is free to start. */
  predicate MayRemove(s: State, t: Tid, e0: Eid)
    requires e0 in s.entries
  {
    if s.entries[e0].awaits then Remover(At(s, t)) && At(s, t).e == e0 else At(s, t).Idle? || At(s, t).Flushing?
  }

  function Marked(s: State, e0: Eid): State
    requires e0 in s.entries
  {
    s.(entries := s.entries[e0 := s.entries[e0].(awaits := true)])
  }

  /** The remover moves, or leaves: what every entry sees of it. */
  lemma RemoverMoves(s: State, t: Tid, e0: Eid, pc: Pc, e: Eid)
    requires e0 in s.entries && MayRemove(s, t, e0) && (pc.Idle? || pc.Flushing? || pc.e == e0)
    ensures Threads(s.pcs[t := pc], e)
         == if e != e0 then Threads(s.pcs, e) else if About(pc, e0) then Threads(s.pcs, e0)[t := pc] else Threads(s.pcs, e0) - {t}
    ensures s.entries[e0].awaits <==> t in Threads(s.pcs, e0)
  {
    ThreadsSet(s.pcs, t, pc, e);
  }

  /** The same behind a broadcast. */
  lemma RemoverBroadcasts(s: State, t: Tid, e0: Eid, pc: Pc, e: Eid)
    requires e0 in s.entries && MayRemove(s, t, e0) && pc.AwaitsDrain? && pc.e == e0
    ensures Threads(Broadcast(s.pcs, e0)[t := pc], e)
         == if e != e0 then Threads(s.pcs, e) else BroadcastHere(Threads(s.pcs, e0))[t := pc]
  {
    ThreadsSet(Broadcast(s.pcs, e0), t, pc, e);
    ThreadsBroadcast(s.pcs, e0, e);
    assert t in Broadcast(s.pcs, e0) ==> (About(Broadcast(s.pcs, e0)[t], e) <==> About(s.pcs[t], e));
  }

  lemma RemoverSleepsKeeps(s: State, t: Tid, e0: Eid, why: Removal)
    requires Inv(s) && e0 in s.listed && MayRemove(s, t, e0) && s.entries[e0].locked
    ensures Inv(AwaitUnlock(Marked(s, e0), t, e0, why))
  {
    hide LocalCore, NoLostWakeup, Threads, MayRemove;
    var s' := AwaitUnlock(Marked(s, e0), t, e0, why);
    var pc := AwaitsUnlock(e0, why, false);
    InvIsEverywhere(s, e0);
    forall e
      ensures e != e0 ==> Untouched(s, s', e)
    {
      RemoverMoves(s, t, e0, pc, e);
    }
    RemoverMoves(s, t, e0, pc, e0);
    SleepingRemover(s, t, e0);
    AwaitUnlockKeeps(Project(s, e0), t, pc);
    Compose(s, s', e0);
  }

  lemma SleepingRemover(s: State, t: Tid, e0: Eid)
    requires e0 in s.entries && MayRemove(s, t, e0)
    ensures var ts := Threads(s.pcs, e0);
            if s.entries[e0].awaits then t in ts && Remover(ts[t]) else t !in ts
  {
  }

  lemma RemoverDrainsKeeps(s: State, t: Tid, e0: Eid, why: Removal)
    requires Inv(s) && e0 in s.listed && MayRemove(s, t, e0) && !s.entries[e0].locked && s.entries[e0].waiting > 0
    ensures Inv(Drain(Marked(s, e0), t, e0, why))
  {
    hide LocalCore, NoLostWakeup, Threads, MayRemove;
    var s' := Drain(Marked(s, e0), t, e0, why);
    var pc := AwaitsDrain(e0, why, false);
    InvIsEverywhere(s, e0);
    forall e
      ensures e != e0 ==> Untouched(s, s', e)
    {
      RemoverBroadcasts(s, t, e0, pc, e);
    }
    RemoverBroadcasts(s, t, e0, pc, e0);
    SleepingRemover(s, t, e0);
    DrainKeeps(Project(s, e0), t, pc);
    Compose(s, s', e0);
  }

  lemma RemoverUnlinksKeeps(s: State, t: Tid, e0: Eid, why: Removal)
    requires Inv(s) && e0 in s.listed && MayRemove(s, t, e0) && !s.entries[e0].locked && s.entries[e0].waiting == 0
    ensures Inv(Drain(Marked(s, e0), t, e0, why))
  {
    hide LocalCore, NoLostWakeup, Threads, MayRemove;
    var s' := Drain(Marked(s, e0), t, e0, why);
    var pc := match why case Delete => Unlinked(e0) case Expire => Idle case Flush => Flushing;
    InvIsEverywhere(s, e0);
    forall e
      ensures e != e0 ==> Untouched(s, s', e)
    {
      RemoverMoves(s, t, e0, pc, e);
    }
    RemoverMoves(s, t, e0, pc, e0);
    SleepingRemover(s, t, e0);
    UnlinkKeeps(Project(s, e0), t, e0);
    assert Threads(s.pcs, e0) - {t} == map[];
    Compose(s, s', e0);
  }

  /** Both loops of wait_remove_entry, entered by a newcomer or re-entered by the woken remover. */
  lemma RemoverKeeps(s: State, t: Tid, e0: Eid, why: Removal)
    requires Inv(s) && e0 in s.listed && MayRemove(s, t, e0)
    ensures Inv(AwaitUnlock(Marked(s, e0), t, e0, why))
    ensures !s.entries[e0].locked ==> Inv(Drain(Marked(s, e0), t, e0, why))
  {
    assert e0 in s.entries;
    hide Inv, MayRemove, Drain;
    if s.entries[e0].locked {
      RemoverSleepsKeeps(s, t, e0, why);
    } else if s.entries[e0].waiting > 0 {
      RemoverDrainsKeeps(s, t, e0, why);
    } else {
      RemoverUnlinksKeeps(s, t, e0, why);
    }
  }

  lemma RemoveKeeps(s: State, t: Tid, e0: Eid, why: Removal)
    requires Inv(s) && Enabled(s, Remove(t, e0, why))
    ensures Inv(Apply(s, Remove(t, e0, why)))
  {
    if !s.entries[e0].awaits {
      RemoverKeeps(s, t, e0, why);
    }
  }

  /** A thread in either loop has an entry that is listed and awaits deletion; in the second it is unlocked. */
  lemma RemoverPlaced(s: State, t: Tid)
    requires Inv(s) && (At(s, t).AwaitsUnlock? || At(s, t).AwaitsDrain?)
    ensures var e := At(s, t).e;
            e in s.entries && e in s.listed && s.entries[e].awaits && (At(s, t).AwaitsDrain? ==> !s.entries[e].locked)
  {
    hide NoLostWakeup, Exclusive;
    var e := At(s, t).e;
    assert t in Threads(s.pcs, e);
    assert Placed(Project(s, e), Project(s, e).ts[t]);
  }

  lemma ResumeRemoverKeeps(s: State, t: Tid)
    requires Inv(s) && Enabled(s, ResumeRemover(t))
    ensures Inv(Apply(s, ResumeRemover(t)))
  {
    hide Inv, AwaitUnlock, Drain, Apply, Marked;
    var pc := At(s, t);
    RemoverPlaced(s, t);
    ResumeRemoverIs(s, t);
    RemoverKeeps(s, t, pc.e, pc.why);
  }

  lemma ResumeRemoverIs(s: State, t: Tid)
    requires Enabled(s, ResumeRemover(t)) && s.entries[At(s, t).e].awaits
    ensures var pc := At(s, t);
            Apply(s, ResumeRemover(t)) == if pc.AwaitsUnlock? then AwaitUnlock(Marked(s, pc.e), t, pc.e, pc.why)
                                          else Drain(Marked(s, pc.e), t, pc.e, pc.why)
  {
    hide AwaitUnlock, Drain;
    var e := At(s, t).e;
    assert s.entries[e := s.entries[e].(awaits := true)] == s.entries;
    assert Marked(s, e) == s;
  }

  lemma DestroyKeeps(s: State, t: Tid)
    requires Inv(s) && Enabled(s, Destroy(t))
    ensures Inv(Apply(s, Destroy(t)))
    ensures Threads(s.pcs, At(s, t).e).Keys == {t} && At(s, t).e in s.entries
  {
    hide LocalCore, NoLostWakeup;
    var e0 := At(s, t).e;
    assert t in Threads(s.pcs, e0);
    InvIsEverywhere(s, e0);
    LastThread(Project(s, e0), t);
    var s' := Apply(s, Destroy(t));
    forall e
      ensures e != e0 ==> Untouched(s, s', e)
    {
      ThreadsSet(s.pcs, t, Idle, e);
    }
    ThreadsSet(s.pcs, t, Idle, e0);
    Compose(s, s', e0);
  }

  /** An unlinked entry concerns nobody but the thread that will destroy it. */
  lemma LastThread(l: Local, t: Tid)
    requires LocalCore(l) && t in l.ts && l.ts[t].Unlinked?
    ensures !l.listed && l.ts.Keys == {t}
  {
    assert Placed(l, l.ts[t]);
    forall u | u in l.ts
      ensures u == t
    {
      assert Placed(l, l.ts[u]);
      assert l.ts[u].Waiting? ==> u in Waiters(l.ts);
    }
  }

  /** Steps that move no thread to or from an entry. */
  lemma BystanderKeeps(s: State, a: Action)
    requires Inv(s) && Enabled(s, a) && (a.Add? || a.BeginFlush? || a.EndFlush? || a.Spurious?)
    ensures Inv(Apply(s, a))
  {
    hide LocalCore, NoLostWakeup;
    var s' := Apply(s, a);
    match a {
      case Add(e0) =>
        InvIsEverywhere(s, e0);
        FreshKeeps();
        Compose(s, s', e0);
      case BeginFlush(t) =>
        forall e ensures Untouched(s, s', e) { ThreadsSet(s.pcs, t, Flushing, e); }
        UntouchedKeeps(s, s');
      case EndFlush(t) =>
        forall e ensures Untouched(s, s', e) { ThreadsSet(s.pcs, t, Idle, e); }
        UntouchedKeeps(s, s');
      case Spurious(t) =>
        var pc := s.pcs[t];
        forall e ensures !About(pc, e) ==> Untouched(s, s', e) { ThreadsSet(s.pcs, t, Wake(pc), e); }
        if pc.Idle? || pc.Flushing? {
          UntouchedKeeps(s, s');
        } else {
          assert t in Threads(s.pcs, pc.e);
          InvIsEverywhere(s, pc.e);
          SpuriousKeeps(Project(s, pc.e), t);
          ThreadsSet(s.pcs, t, Wake(pc), pc.e);
          Compose(s, s', pc.e);
        }
    }
  }

  lemma FreshKeeps()
    ensures LocalInv(Local(Entry(false, 0, false), true, map[]))
  {
    assert Waiters(map[]) == {};
  }

  lemma UntouchedKeeps(s: State, s': State)
    requires Inv(s) && (forall e :: Untouched(s, s', e)) && s'.destroyed == s.destroyed
    ensures Inv(s')
  {
    hide LocalInv;
    forall e
      ensures e in s'.listed ==> e in s'.entries
      ensures e in s'.entries ==> e !in s'.destroyed && LocalInv(Project(s', e))
      ensures e !in s'.entries ==> Threads(s'.pcs, e) == map[]
    {
      assert Untouched(s, s', e);
    }
  }

  lemma StepKeeps(s: State, a: Action)
    requires Inv(s) && Enabled(s, a)
    ensures Inv(Apply(s, a))
  {
    match a
    case Enter(t, e, use, w) =>
      InvIsEverywhere(s, e);
      WaitForEntryKeeps(s, t, e, use, w);
    case Resume(t, w) => ResumeKeeps(s, t, w);
    case Checkin(t, w) => CheckinKeeps(s, t, w);
    case Remove(t, e, why) => RemoveKeeps(s, t, e, why);
    case ResumeRemover(t) => ResumeRemoverKeeps(s, t);
    case Destroy(t) => DestroyKeeps(s, t);
    case _ => BystanderKeeps(s, a);
  }

  /** Every reachable state satisfies the invariant. */
  lemma {:induction false} RunKeeps(s: State, run: seq<Action>)
    requires Inv(s) && ValidRun(s, run)
    ensures Inv(Exec(s, run))
    decreases |run|
  {
    if run != [] {
      StepKeeps(s, run[0]);
      RunKeeps(Apply(s, run[0]), run[1..]);
    }
  }

  // ----- what it means

  function ThreadsWaitingFor(s: State, e: Eid): set<Tid> {
    set t | t in s.pcs && s.pcs[t].Waiting? && s.pcs[t].e == e
  }

  /**
   * Locking safety, in every reachable state: an entry is locked exactly while
   * one thread holds it, its counter is the number of threads waiting for it,
   * and whatever is held or waited for is in the list and not destroyed; no
   * entry is ever destroyed twice.
   */
  lemma LockingSafety(run: seq<Action>)
    requires ValidRun(INITIAL, run)
    ensures var s := Exec(INITIAL, run);
            && (forall t, u, e :: At(s, t) == Holding(e) && At(s, u) == Holding(e) ==> t == u)
            && (forall e :: e in s.entries ==> s.entries[e].waiting == |ThreadsWaitingFor(s, e)|)
            && (forall e :: e in s.entries ==> (s.entries[e].locked <==> exists t :: At(s, t) == Holding(e)))
            && (forall t, e :: About(At(s, t), e) ==> e in s.entries && e !in s.destroyed)
            && (forall t, e :: At(s, t) == Holding(e) || (At(s, t).Waiting? && At(s, t).e == e) ==> e in s.listed)
            && (forall i, j :: 0 <= i < j < |s.destroyed| ==> s.destroyed[i] != s.destroyed[j])
  {
    var s := Exec(INITIAL, run);
    InitialInv();
    RunKeeps(INITIAL, run);
    forall t, e | About(At(s, t), e)
      ensures t in Threads(s.pcs, e) && Threads(s.pcs, e)[t] == At(s, t)
      ensures e in s.entries && e !in s.destroyed
      ensures At(s, t).Holding? || At(s, t).Waiting? ==> e in s.listed
    {
      ConcernedEntry(s, t, e);
    }
    forall e | e in s.entries
      ensures s.entries[e].waiting == |ThreadsWaitingFor(s, e)|
      ensures s.entries[e].locked ==> exists t :: At(s, t) == Holding(e)
      ensures (exists t :: At(s, t) == Holding(e)) ==> s.entries[e].locked
    {
      CountsAndLock(s, e);
    }
    forall t, u, e | At(s, t) == Holding(e) && At(s, u) == Holding(e)
      ensures t == u
    {
      assert t in Threads(s.pcs, e) && u in Threads(s.pcs, e);
      assert Exclusive(Project(s, e).ts);
    }
  }

  lemma InitialInv()
    ensures Inv(INITIAL)
  {
  }

  lemma ConcernedEntry(s: State, t: Tid, e: Eid)
    requires Inv(s) && About(At(s, t), e)
    ensures t in Threads(s.pcs, e) && Threads(s.pcs, e)[t] == At(s, t)
    ensures e in s.entries && e !in s.destroyed
    ensures At(s, t).Holding? || At(s, t).Waiting? ==> e in s.listed
  {
    assert t in Threads(s.pcs, e);
    assert e in s.entries;
    var l := Project(s, e);
    assert Placed(l, l.ts[t]);
    WaitersAreListed(l, t);
  }

  lemma CountsAndLock(s: State, e: Eid)
    requires Inv(s) && e in s.entries
    ensures s.entries[e].waiting == |ThreadsWaitingFor(s, e)|
    ensures s.entries[e].locked <==> exists t :: At(s, t) == Holding(e)
  {
    hide NoLostWakeup, Exclusive;
    var l := Project(s, e);
    assert LocalCore(l);
    assert Waiters(l.ts) == ThreadsWaitingFor(s, e);
    if l.x.locked {
      var h :| h in l.ts && l.ts[h].Holding?;
      assert At(s, h) == Holding(e);
    }
    if t :| At(s, t) == Holding(e) {
      assert t in l.ts && Placed(l, l.ts[t]);
    }
  }

  lemma UnlinkedIsFree(s: State, t: Tid)
    requires Inv(s) && At(s, t).Unlinked?
    ensures var e := At(s, t).e; e in s.entries && !s.entries[e].locked && s.entries[e].waiting == 0
  {
    var e := At(s, t).e;
    ConcernedEntry(s, t, e);
    assert Placed(Project(s, e), Project(s, e).ts[t]);
  }

  lemma DrainingIsUnlocked(s: State, t: Tid)
    requires Inv(s) && At(s, t).AwaitsDrain?
    ensures var e := At(s, t).e; e in s.entries && !s.entries[e].locked
  {
    var e := At(s, t).e;
    ConcernedEntry(s, t, e);
    assert Placed(Project(s, e), Project(s, e).ts[t]);
  }

  lemma EntriesAfterWait(s: State, t: Tid, e0: Eid, use: Use, w: Woken)
    requires e0 in s.entries
    ensures var s' := WaitForEntry(s, t, e0, use, w);
            && s'.destroyed == s.destroyed && s'.entries.Keys == s.entries.Keys
            && (forall e :: e in s.entries && e != e0 ==> s'.entries[e] == s.entries[e])
            && (s.entries[e0].awaits ==> s'.entries[e0] == s.entries[e0])
  {
  }

  ghost predicate GoneOrSame(s: State, s': State, e0: Eid)
    requires e0 in s.entries
  {
    || (s'.destroyed == s.destroyed && s'.entries == s.entries)
    || (s'.destroyed == s.destroyed + [e0] && s'.entries == s.entries - {e0} && s.entries[e0].waiting == 0)
  }

  lemma EntriesAfterRemover(s: State, t: Tid, e0: Eid, why: Removal)
    requires e0 in s.entries
    ensures GoneOrSame(s, Drain(s, t, e0, why), e0)
    ensures GoneOrSame(s, AwaitUnlock(s, t, e0, why), e0)
    ensures s.entries[e0].locked ==> AwaitUnlock(s, t, e0, why).entries == s.entries
  {
  }

  /** The effect of any step on the entries, as far as a removal is concerned. */
  lemma EntriesAfter(s: State, a: Action, e: Eid)
    requires Inv(s) && Enabled(s, a) && e in s.entries
    ensures var s' := Apply(s, a);
            && (e !in s'.entries ==>
                  s'.destroyed == s.destroyed + [e] && !s.entries[e].locked && s.entries[e].waiting == 0)
            && (e in s'.entries && s.entries[e].awaits ==>
                  && s'.entries[e].awaits
                  && (s'.entries[e] == s.entries[e] || a.Resume? || a.Checkin?)
                  && Rank(s', e) <= Rank(s, e)
                  && ((a.Resume? || a.Checkin?) && At(s, a.t).e == e ==> Rank(s', e) < Rank(s, e)))
  {
    hide WaitForEntry, AwaitUnlock, Drain, Inv, MayWake, Signal;
    match a
    case Enter(t, e0, use, w) =>
      EntriesAfterWait(s, t, e0, use, w);
    case Resume(t, w) =>
      ResumeKeeps(s, t, w);
      var pc := At(s, t);
      var x := s.entries[pc.e];
      EntriesAfterWait(s.(entries := s.entries[pc.e := x.(waiting := x.waiting - 1)], pcs := s.pcs[t := Idle]),
                       t, pc.e, pc.use, w);
    case Checkin(t, w) =>
      CountsAndLock(s, At(s, t).e);
      assert s.entries[At(s, t).e].locked;
    case Remove(t, e0, why) =>
      EntriesAfterRemover(s.(entries := s.entries[e0 := s.entries[e0].(awaits := true)]), t, e0, why);
    case ResumeRemover(t) =>
      EntriesAfterRemover(s, t, At(s, t).e, At(s, t).why);
      if At(s, t).AwaitsDrain? {
        DrainingIsUnlocked(s, t);
      }
    case Destroy(t) =>
      UnlinkedIsFree(s, t);
    case _ =>
  }

  /** An entry is destroyed only once no thread but its remover is concerned with it, and is gone for all afterwards. */
  lemma DestroyedOnlyWhenFree(s: State, a: Action, e: Eid)
    requires Inv(s) && Enabled(s, a) && e in s.entries && e !in Apply(s, a).entries
    ensures var s' := Apply(s, a);
            && s'.destroyed == s.destroyed + [e]
            && (forall t :: At(s, t) != Holding(e) && !(At(s, t).Waiting? && At(s, t).e == e))
            && (forall t :: !About(At(s', t), e))
  {
    var s' := Apply(s, a);
    StepKeeps(s, a);
    EntriesAfter(s, a, e);
    CountsAndLock(s, e);
    hide LocalInv, Apply;
    forall t
      ensures !(At(s, t).Waiting? && At(s, t).e == e)
    {
      assert At(s, t).Waiting? && At(s, t).e == e ==> t in ThreadsWaitingFor(s, e);
    }
    forall t
      ensures !About(At(s', t), e)
    {
      assert Threads(s'.pcs, e) == map[];
      assert About(At(s', t), e) ==> t in Threads(s'.pcs, e);
    }
  }

  // ----- progress of a removal

  /** How many threads a remover still has to see off. */
  function Rank(s: State, e: Eid): nat
    requires e in s.entries
  {
    s.entries[e].waiting + if s.entries[e].locked then 1 else 0
  }

  lemma SomeWake(pcs: map<Tid, Pc>, e: Eid) returns (w: Woken)
    ensures MayWake(pcs, e, w)
  {
    if t :| t in pcs && Blocked(pcs[t], e) {
      w := Somebody(t);
    } else {
      w := Nobody;
    }
  }

  /**
   * No wake-up is lost: whenever a remover sleeps on an unlocked entry, some
   * woken waiter of that entry can run.
   */
  lemma WakeupNeverLost(run: seq<Action>, t: Tid)
    requires ValidRun(INITIAL, run)
    requires var pc := At(Exec(INITIAL, run), t);
             && (pc.AwaitsUnlock? || pc.AwaitsDrain?) && !pc.woken
             && pc.e in Exec(INITIAL, run).entries && !Exec(INITIAL, run).entries[pc.e].locked
    ensures var s := Exec(INITIAL, run);
            exists u, w :: Enabled(s, Resume(u, w)) && At(s, u).e == At(s, t).e
  {
    hide Inv, Enabled;
    InitialInv();
    RunKeeps(INITIAL, run);
    WaiterCanRun(Exec(INITIAL, run), t);
  }

  lemma WaiterCanRun(s: State, t: Tid)
    requires Inv(s) && Remover(At(s, t)) && Asleep(At(s, t)) && At(s, t).e in s.entries && !s.entries[At(s, t).e].locked
    ensures exists u, w :: Enabled(s, Resume(u, w)) && At(s, u).e == At(s, t).e
  {
    hide LocalCore, MayWake;
    var e := At(s, t).e;
    ConcernedEntry(s, t, e);
    var l := Project(s, e);
    WokenIsWaiter(l, t);
    var u :| u in l.ts && l.ts[u].Waiting? && l.ts[u].woken;
    hide Inv;
    var w := SomeWake(s.pcs[u := Idle], e);
    assert Enabled(s, Resume(u, w));
  }

  /** Nobody is stranded: whenever any thread sleeps on an unlocked entry, some thread woken on that entry can run. */
  lemma NobodyStranded(run: seq<Action>, t: Tid)
    requires ValidRun(INITIAL, run) && Asleep(At(Exec(INITIAL, run), t))
    requires var s := Exec(INITIAL, run); At(s, t).e in s.entries && !s.entries[At(s, t).e].locked
    ensures var s := Exec(INITIAL, run);
            exists a: Action :: (a.Resume? || a.ResumeRemover?) && Enabled(s, a) && At(s, a.t).e == At(s, t).e
  {
    hide Inv, Enabled;
    InitialInv();
    RunKeeps(INITIAL, run);
    SomebodyCanRun(Exec(INITIAL, run), t);
  }

  lemma SomebodyCanRun(s: State, t: Tid)
    requires Inv(s) && Asleep(At(s, t)) && At(s, t).e in s.entries && !s.entries[At(s, t).e].locked
    ensures exists a: Action :: (a.Resume? || a.ResumeRemover?) && Enabled(s, a) && At(s, a.t).e == At(s, t).e
  {
    hide LocalCore, MayWake;
    var e := At(s, t).e;
    ConcernedEntry(s, t, e);
    var l := Project(s, e);
    var u :| u in l.ts && Awake(l.ts[u]);
    hide Inv;
    if l.ts[u].Waiting? {
      var w := SomeWake(s.pcs[u := Idle], e);
      assert Enabled(s, Resume(u, w)) && At(s, Resume(u, w).t).e == e;
    } else {
      assert Enabled(s, ResumeRemover(u)) && At(s, ResumeRemover(u).t).e == e;
    }
  }

  /** While an entry awaits deletion no step lets more threads in, and those leaving bring the end nearer. */
  lemma RankNeverGrows(s: State, a: Action, e: Eid)
    requires Inv(s) && Enabled(s, a) && e in s.entries && s.entries[e].awaits
    requires e in Apply(s, a).entries
    ensures Apply(s, a).entries[e].awaits && Rank(Apply(s, a), e) <= Rank(s, e)
    ensures (a.Resume? || a.Checkin?) && At(s, a.t).e == e ==> Rank(Apply(s, a), e) < Rank(s, e)
  {
    EntriesAfter(s, a, e);
  }

  /** A waiter of e resuming, or its holder giving it back. */
  predicate Departs(s: State, a: Action, e: Eid) {
    (a.Resume? || a.Checkin?) && About(At(s, a.t), e)
  }

  ghost function Departures(s: State, run: seq<Action>, e: Eid): nat
    requires ValidRun(s, run)
    decreases |run|
  {
    if run == [] then 0 else (if Departs(s, run[0], e) then 1 else 0) + Departures(Apply(s, run[0]), run[1..], e)
  }

  /** Over any run, whatever is scheduled: once an entry awaits deletion, no more threads leave it than were there. */
  lemma {:induction false} DeparturesBounded(s: State, run: seq<Action>, e: Eid)
    requires Inv(s) && ValidRun(s, run) && e in s.entries && s.entries[e].awaits
    ensures var s' := Exec(s, run);
            && Departures(s, run, e) + (if e in s'.entries then Rank(s', e) else 0) <= Rank(s, e)
            && (e in s'.entries ==> s'.entries[e].awaits)
            && (e !in s'.entries ==> e in s'.destroyed)
    decreases |run|
  {
    if run != [] {
      var a := run[0];
      StepKeeps(s, a);
      EntriesAfter(s, a, e);
      hide Inv, Enabled, Apply;
      if e in Apply(s, a).entries {
        DeparturesBounded(Apply(s, a), run[1..], e);
      } else {
        NotWhenGone(s, a, e);
        GoneForGood(Apply(s, a), run[1..], e);
      }
    }
  }

  /** The step that ends an entry is no departure from it. */
  lemma NotWhenGone(s: State, a: Action, e: Eid)
    requires Inv(s) && Enabled(s, a) && e in s.entries && e !in Apply(s, a).entries
    ensures !Departs(s, a, e)
  {
    hide Inv, MayWake;
  }

  lemma {:induction false} GoneForGood(s: State, run: seq<Action>, e: Eid)
    requires Inv(s) && ValidRun(s, run) && e !in s.entries && e in s.destroyed
    ensures Departures(s, run, e) == 0 && e !in Exec(s, run).entries && e in Exec(s, run).destroyed
    decreases |run|
  {
    if run != [] {
      StepKeeps(s, run[0]);
      StaysGone(s, run[0], e);
      hide Inv, Enabled, Apply, Departs;
      GoneForGood(Apply(s, run[0]), run[1..], e);
    }
  }

  lemma StaysGone(s: State, a: Action, e: Eid)
    requires Inv(s) && Enabled(s, a) && e !in s.entries && e in s.destroyed
    ensures !Departs(s, a, e) && e !in Apply(s, a).entries && e in Apply(s, a).destroyed
  {
    hide LocalInv, MayWake;
  }

  /** With everybody gone the remover can go on: to unlink the entry, or to destroy it. */
  lemma RemoverTurn(s: State, e: Eid)
    requires Inv(s) && e in s.entries && s.entries[e].awaits && Rank(s, e) == 0
    ensures exists a: Action :: (a.ResumeRemover? || a.Destroy?) && Enabled(s, a) && About(At(s, a.t), e)
  {
    var r := RemoverAwake(s, e);
    CountsAndLock(s, e);
    hide Inv;
    if e in s.listed {
      assert !SomeWaiterWoken(Threads(s.pcs, e)) by {
        assert forall u :: u in Threads(s.pcs, e) && Threads(s.pcs, e)[u].Waiting? ==> u in ThreadsWaitingFor(s, e);
      }
      assert Enabled(s, ResumeRemover(r)) && About(At(s, ResumeRemover(r).t), e);
    } else {
      assert Enabled(s, Destroy(r)) && About(At(s, Destroy(r).t), e);
    }
  }

  /** Distance to the end of a removal: threads to see off, then who has to move next. */
  ghost function Distance(s: State, e: Eid): nat
    requires e in s.entries
  {
    3 * Rank(s, e) +
    if e !in s.listed then 0
    else if s.entries[e].locked || Rank(s, e) == 0 || SomeWaiterWoken(Threads(s.pcs, e)) then 1
    else 2
  }

  /** Without a woken waiter or a holder, it is the remover's turn. */
  lemma RemoverAwake(s: State, e: Eid) returns (r: Tid)
    requires Inv(s) && e in s.entries && s.entries[e].awaits
    ensures Remover(At(s, r)) && At(s, r).e == e
    ensures e in s.listed <==> !At(s, r).Unlinked?
    ensures e in s.listed && !s.entries[e].locked && !SomeWaiterWoken(Threads(s.pcs, e)) ==> Enabled(s, ResumeRemover(r))
  {
    hide Exclusive;
    var l := Project(s, e);
    r :| r in l.ts && Remover(l.ts[r]);
    assert Placed(l, l.ts[r]);
    if Asleep(l.ts[r]) {
      WokenIsWaiter(l, r);
    }
  }

  /** Beside a sleeping remover, whoever is woken is a waiter. */
  lemma WokenIsWaiter(l: Local, r: Tid)
    requires LocalCore(l) && r in l.ts && Remover(l.ts[r]) && Asleep(l.ts[r])
    ensures SomeWoken(l.ts) ==> SomeWaiterWoken(l.ts)
  {
    if u :| u in l.ts && Awake(l.ts[u]) {
      assert u != r && l.ts[u].Waiting? && l.ts[u].woken;
    }
  }

  lemma SomeWaiter(s: State, e: Eid) returns (u: Tid)
    requires Inv(s) && e in s.entries && s.entries[e].waiting > 0
    ensures At(s, u).Waiting? && At(s, u).e == e
  {
    CountsAndLock(s, e);
    u :| u in ThreadsWaitingFor(s, e);
  }

  /** The resumed remover either unlinks the entry or wakes its waiters. */
  lemma RemoverHelps(s: State, r: Tid, e: Eid)
    requires Inv(s) && Enabled(s, ResumeRemover(r)) && At(s, r).e == e && !s.entries[e].locked && e in s.listed
    requires !SomeWaiterWoken(Threads(s.pcs, e)) && s.entries[e].awaits
    ensures var s' := Apply(s, ResumeRemover(r));
            e in s'.entries ==> s'.entries[e].awaits && Distance(s', e) < Distance(s, e)
  {
    hide Inv;
    var s' := Apply(s, ResumeRemover(r));
    assert s' == Drain(s, r, e, At(s, r).why);
    if s.entries[e].waiting > 0 {
      var u := SomeWaiter(s, e);
      assert u in Threads(s'.pcs, e) && Threads(s'.pcs, e)[u].Waiting? && Threads(s'.pcs, e)[u].woken;
      assert SomeWaiterWoken(Threads(s'.pcs, e));
    }
  }

  lemma RankDropHelps(s: State, a: Action, e: Eid)
    requires Inv(s) && Enabled(s, a) && e in s.entries && s.entries[e].awaits
    requires (a.Resume? || a.Checkin?) && At(s, a.t).e == e && e in s.listed
    ensures e in Apply(s, a).entries ==> Apply(s, a).entries[e].awaits && Distance(Apply(s, a), e) < Distance(s, e)
  {
    EntriesAfter(s, a, e);
    hide Apply, Inv, Enabled;
  }

  /** From every state in which an entry awaits deletion, some step brings its removal strictly nearer. */
  lemma HelpfulStep(s: State, e: Eid) returns (a: Action)
    requires Inv(s) && e in s.entries && s.entries[e].awaits
    ensures Enabled(s, a)
    ensures e in Apply(s, a).entries ==> Apply(s, a).entries[e].awaits && Distance(Apply(s, a), e) < Distance(s, e)
  {
    hide Distance, Inv;
    var r := RemoverAwake(s, e);
    if e !in s.listed {
      a := Destroy(r);
    } else if s.entries[e].locked {
      CountsAndLock(s, e);
      var h :| At(s, h) == Holding(e);
      var w := SomeWake(s.pcs[h := Idle], e);
      a := Checkin(h, w);
      RankDropHelps(s, a, e);
    } else if SomeWaiterWoken(Threads(s.pcs, e)) {
      var u :| u in Threads(s.pcs, e) && Threads(s.pcs, e)[u].Waiting? && Threads(s.pcs, e)[u].woken;
      var w := SomeWake(s.pcs[u := Idle], e);
      a := Resume(u, w);
      RankDropHelps(s, a, e);
    } else {
      a := ResumeRemover(r);
      RemoverHelps(s, r, e);
    }
  }

  /**
   * A removal once begun can always be carried through: from every reachable
   * state in which an entry awaits deletion, a run of bounded length destroys it.
   */
  lemma {:induction false} RemovalReachable(s: State, e: Eid) returns (run: seq<Action>)
    requires Inv(s) && e in s.entries && s.entries[e].awaits
    ensures ValidRun(s, run) && e in Exec(s, run).destroyed
    ensures |run| <= Distance(s, e) + 1
    decreases Distance(s, e)
  {
    var a := HelpfulStep(s, e);
    var s' := Apply(s, a);
    StepKeeps(s, a);
    EntriesAfter(s, a, e);
    hide Inv, Enabled, Apply, Distance;
    if e in s'.entries {
      var rest := RemovalReachable(s', e);
      run := [a] + rest;
      assert run[1..] == rest;
    } else {
      run := [a];
      assert run[1..] == [];
      assert Exec(s, run) == Exec(s', []) == s';
    }
  }

  // ----- what every step grants

  /** The thread of an Enter or Resume, with the entry and the use it asks for. */
  ghost predicate Asks(s: State, a: Action, t: Tid, e: Eid, use: Use) {
    || (a.Enter? && a.t == t && a.e == e && a.use == use)
    || (a.Resume? && a.t == t && At(s, t).Waiting? && At(s, t).e == e && At(s, t).use == use)
  }

  /**
   * What a thread that asks for an entry gets: the lock, or the entry for one
   * step, if it is free; a place among the waiters while it is locked; nothing
   * once it awaits deletion.
   */
  lemma AskingGets(s: State, a: Action, t: Tid, e: Eid, use: Use)
    requires Inv(s) && Enabled(s, a) && Asks(s, a, t, e, use)
    ensures e in s.entries && e in Apply(s, a).entries && (a.Resume? ==> s.entries[e].waiting > 0)
    ensures var (x, x', pc') := (s.entries[e], Apply(s, a).entries[e], At(Apply(s, a), t));
            var others := x.waiting - if a.Resume? then 1 else 0;
            && (x.awaits ==> pc' == Idle && x' == Entry(x.locked, others, true))
            && (!x.awaits && x.locked ==> pc' == Waiting(e, use, false) && x' == Entry(true, others + 1, false))
            && (!x.awaits && !x.locked && use == Checkout ==> pc' == Holding(e) && x' == Entry(true, others, false))
            && (!x.awaits && !x.locked && use == Touch ==> pc' == Idle && x' == Entry(false, others, false))
  {
    hide Inv;
    if a.Resume? {
      assert s.entries[e].waiting > 0 by { WaiterCounted(s, t, e); }
    }
  }

  lemma WaiterCounted(s: State, t: Tid, e: Eid)
    requires Inv(s) && e in s.entries && At(s, t).Waiting? && At(s, t).e == e
    ensures s.entries[e].waiting > 0
  {
    CountsAndLock(s, e);
    assert t in ThreadsWaitingFor(s, e);
  }

  /** Giving an entry back unlocks it. */
  lemma CheckinFrees(s: State, t: Tid, w: Woken)
    requires Enabled(s, Checkin(t, w))
    ensures var (e, s') := (At(s, t).e, Apply(s, Checkin(t, w)));
            && At(s', t) == Idle && e in s'.entries && s'.entries[e] == s.entries[e].(locked := false)
            && (forall u :: u != t && w != Somebody(u) ==> At(s', u) == At(s, u))
            && (w.Somebody? ==> At(s', w.t) == Wake(At(s, w.t)) && Awake(At(s', w.t)))
  {
  }

  /** An idle thread may ask for any entry in the list, a woken one may go on, and a holder may give back. */
  lemma MayAlwaysAct(s: State, t: Tid, e: Eid, use: Use) returns (w: Woken)
    requires Inv(s) && e in s.entries
    ensures At(s, t).Idle? && e in s.listed ==> Enabled(s, Enter(t, e, use, w))
    ensures At(s, t).Waiting? && At(s, t).woken && At(s, t).e == e ==> Enabled(s, Resume(t, w))
    ensures At(s, t) == Holding(e) ==> Enabled(s, Checkin(t, w))
    ensures At(s, t).Idle? && e in s.listed ==> Enabled(s, Remove(t, e, Delete)) && Enabled(s, Remove(t, e, Expire))
    ensures At(s, t).Flushing? && e in s.listed ==> Enabled(s, Remove(t, e, Flush))
  {
    hide Inv;
    w := SomeWake(s.pcs[t := Idle], e);
  }

  /**
   * Beginning a removal marks the entry, or takes it out at once when it is
   * free; a second removal changes nothing.
   */
  lemma RemovalBegins(s: State, t: Tid, e: Eid, why: Removal)
    requires Inv(s) && Enabled(s, Remove(t, e, why))
    ensures var (x, s') := (s.entries[e], Apply(s, Remove(t, e, why)));
            if x.awaits then s' == s
            else if x.locked then e in s'.listed && s'.entries[e] == x.(awaits := true) && At(s', t) == AwaitsUnlock(e, why, false)
            else if x.waiting > 0 then
              && e in s'.listed && s'.entries[e] == x.(awaits := true) && At(s', t) == AwaitsDrain(e, why, false)
              && forall u :: u != t && At(s, u).Waiting? && At(s, u).e == e ==> At(s', u).Waiting? && At(s', u).woken
            else TakenOut(s', t, e, why)
  {
    hide Inv;
  }

  /** The entry is out of the list and destroyed; a deletion destroys it in a step of its own. */
  ghost predicate TakenOut(s: State, t: Tid, e: Eid, why: Removal) {
    && e !in s.listed
    && match why
       case Delete => e in s.entries && At(s, t) == Unlinked(e)
       case Expire => e !in s.entries && e in s.destroyed && At(s, t) == Idle
       case Flush => e !in s.entries && e in s.destroyed && At(s, t) == Flushing
  }

  /** A remover that goes on waits for the lock first, then for the waiters, whom it wakes, and then takes the entry out. */
  lemma RemovalGoesOn(s: State, t: Tid)
    requires Inv(s) && Enabled(s, ResumeRemover(t))
    ensures var (e, why, s') := (At(s, t).e, At(s, t).why, Apply(s, ResumeRemover(t)));
            if s.entries[e].locked then s'.entries == s.entries && At(s', t) == AwaitsUnlock(e, why, false)
            else if s.entries[e].waiting > 0 then
              && s'.entries == s.entries && At(s', t) == AwaitsDrain(e, why, false)
              && forall u :: u != t && At(s, u).Waiting? && At(s, u).e == e ==> At(s', u).Waiting? && At(s', u).woken
            else TakenOut(s', t, e, why)
  {
    hide Inv;
    if At(s, t).AwaitsDrain? {
      assert !s.entries[At(s, t).e].locked by { DrainingIsUnlocked(s, t); }
    }
  }

  /** A thread waits to check an entry out that is not being removed. */
  ghost predicate WaitsFor(s: State, t: Tid, e: Eid) {
    && e in s.entries && !s.entries[e].awaits
    && At(s, t).Waiting? && At(s, t).e == e && At(s, t).use == Checkout
  }

  lemma Prefixed(s: State, a: Action, rest: seq<Action>) returns (run: seq<Action>)
    requires Enabled(s, a) && ValidRun(Apply(s, a), rest)
    ensures run == [a] + rest && ValidRun(s, run) && Exec(s, run) == Exec(Apply(s, a), rest)
  {
    hide Enabled, Apply;
    run := [a] + rest;
    assert run[1..] == rest;
  }

  /** A woken waiter of a free entry takes it. */
  lemma HoldsNow(s: State, t: Tid, e: Eid) returns (run: seq<Action>)
    requires Inv(s) && WaitsFor(s, t, e) && At(s, t).woken && !s.entries[e].locked
    ensures ValidRun(s, run) && |run| == 1 && run[0].Resume?
    ensures At(Exec(s, run), t) == Holding(e) && e in Exec(s, run).entries && Exec(s, run).entries[e].locked
  {
    var w := MayAlwaysAct(s, t, e, Checkout);
    AskingGets(s, Resume(t, w), t, e, Checkout);
    hide Inv, Enabled, Apply;
    run := Prefixed(s, Resume(t, w), []);
  }

  /** A signal may go to any sleeping waiter. */
  lemma MayWakeThis(s: State, u: Tid, t: Tid, e: Eid)
    requires At(s, t).Waiting? && At(s, t).e == e && !At(s, t).woken && u != t
    ensures MayWake(s.pcs[u := Idle], e, Somebody(t))
  {
  }

  /** The holder gives a locked entry back, and the waiter takes it. */
  lemma AfterCheckin(s: State, t: Tid, e: Eid) returns (run: seq<Action>)
    requires Inv(s) && WaitsFor(s, t, e) && s.entries[e].locked
    ensures ValidRun(s, run) && |run| == 2 && run[0].Checkin? && run[1].Resume?
    ensures At(Exec(s, run), t) == Holding(e) && e in Exec(s, run).entries && Exec(s, run).entries[e].locked
  {
    hide Inv, MayWake, Apply;
    CountsAndLock(s, e);
    var h :| At(s, h) == Holding(e);
    var w := SomeWake(s.pcs[h := Idle], e);
    if !At(s, t).woken {
      w := Somebody(t);
      MayWakeThis(s, h, t, e);
    }
    var a := Checkin(h, w);
    assert Enabled(s, a);
    hide Enabled;
    StepKeeps(s, a);
    CheckinFrees(s, h, w);
    var rest := HoldsNow(Apply(s, a), t, e);
    run := Prefixed(s, a, rest);
  }

  /** Where a waiter sleeps on a free entry nobody removes, another waiter is awake. */
  lemma WokenWaiter(s: State, t: Tid, e: Eid) returns (u: Tid)
    requires Inv(s) && WaitsFor(s, t, e) && !At(s, t).woken && !s.entries[e].locked
    ensures u != t && At(s, u).Waiting? && At(s, u).woken && At(s, u).e == e
  {
    hide Exclusive;
    ConcernedEntry(s, t, e);
    var l := Project(s, e);
    u :| u in l.ts && Awake(l.ts[u]);
    assert Placed(l, l.ts[u]);
  }

  /** The one awake takes the entry, or passes the signal on. */
  lemma AwakeGoesOn(s: State, u: Tid, t: Tid, e: Eid)
    requires Inv(s) && WaitsFor(s, t, e) && !At(s, t).woken && !s.entries[e].locked
    requires u != t && At(s, u).Waiting? && At(s, u).woken && At(s, u).e == e
    ensures Enabled(s, Resume(u, Somebody(t)))
    ensures var s' := Apply(s, Resume(u, Somebody(t)));
            && WaitsFor(s', t, e)
            && if At(s, u).use == Checkout then s'.entries[e].locked else !s'.entries[e].locked && At(s', t).woken
  {
    hide Inv;
    MayWakeThis(s, u, t, e);
  }

  /**
   * A checkout can always be carried through: from every reachable state, a
   * thread that waits for an entry not awaiting deletion comes to hold it within
   * three steps, none of them a spurious wake-up.
   */
  lemma CheckoutReachable(s: State, t: Tid, e: Eid) returns (run: seq<Action>)
    requires Inv(s) && WaitsFor(s, t, e)
    ensures ValidRun(s, run) && 1 <= |run| <= 3 && (forall i :: 0 <= i < |run| ==> run[i].Resume? || run[i].Checkin?)
    ensures At(Exec(s, run), t) == Holding(e) && e in Exec(s, run).entries && Exec(s, run).entries[e].locked
  {
    hide Inv, Enabled, Apply;
    if s.entries[e].locked {
      run := AfterCheckin(s, t, e);
    } else if At(s, t).woken {
      run := HoldsNow(s, t, e);
    } else {
      var u := WokenWaiter(s, t, e);
      var a := Resume(u, Somebody(t));
      AwakeGoesOn(s, u, t, e);
      StepKeeps(s, a);
      var rest: seq<Action>;
      if At(s, u).use == Checkout {
        rest := AfterCheckin(Apply(s, a), t, e);
      } else {
        rest := HoldsNow(Apply(s, a), t, e);
      }
      run := Prefixed(s, a, rest);
    }
  }

  /** A new entry is free, listed and nobody's. */
  lemma AddLists(s: State, e: Eid)
    requires Inv(s) && Enabled(s, Add(e))
    ensures var s' := Apply(s, Add(e));
            && e in s'.listed && e in s'.entries && s'.entries[e] == Entry(false, 0, false)
            && (forall t :: At(s', t) == At(s, t) && !About(At(s', t), e))
            && (forall e' :: e' != e ==> (e' in s'.listed <==> e' in s.listed))
  {
    hide LocalInv;
    forall t
      ensures !About(At(s, t), e)
    {
      assert About(At(s, t), e) ==> t in Threads(s.pcs, e);
    }
  }

  /** A sleeper may wake up for no reason, and then goes on as if signalled; a flush begins and ends with its thread. */
  lemma WakesAndFlushes(s: State, t: Tid)
    ensures Asleep(At(s, t)) ==>
              && Enabled(s, Spurious(t)) && Awake(At(Apply(s, Spurious(t)), t)) && At(Apply(s, Spurious(t)), t).e == At(s, t).e
              && forall u :: u != t ==> At(Apply(s, Spurious(t)), u) == At(s, u)
    ensures At(s, t).Idle? ==> Enabled(s, BeginFlush(t)) && At(Apply(s, BeginFlush(t)), t).Flushing?
    ensures At(s, t).Flushing? ==> Enabled(s, EndFlush(t)) && At(Apply(s, EndFlush(t)), t).Idle?
  {
  }
}
