/**
 * The TLS session cache: a list of sessions, newest first, for eviction and for
 * finding a session by identity, and a table for finding one by session id.
 */
module TlsCache {
  import opened Bytes

  type Id = seq<byte>

  datatype Entry = Entry(session: seq<byte>, master: seq<byte>, suite: nat, id: Option<Id>, t: nat)

  datatype State = State(list: seq<Entry>, table: map<seq<byte>, Entry>)

  predicate Occurs(list: seq<Entry>, session: seq<byte>) {
    exists i :: 0 <= i < |list| && list[i].session == session
  }

  /** The newest entry for a session id, by scanning the list. */
  function Newest(list: seq<Entry>, session: seq<byte>): (r: Option<Entry>)
    ensures r.Some? <==> Occurs(list, session)
    ensures r.Some? ==> r.value in list && r.value.session == session
  {
    if list == [] then None
    else if list[0].session == session then assert list[0].session == session; Some(list[0])
    else
      var r := Newest(list[1..], session);
      assert Occurs(list, session) <==> Occurs(list[1..], session) by {
        assert forall i :: 0 < i < |list| ==> list[i] == list[1..][i - 1];
        assert forall i :: 0 <= i < |list[1..]| ==> list[1..][i] == list[i + 1];
      }
      r
  }

  /** The table is the map the list induces. */
  ghost predicate Agrees(s: State) {
    forall session :: if session in s.table then Newest(s.list, session) == Some(s.table[session]) else Newest(s.list, session) == None
  }

  ghost predicate Unique(list: seq<Entry>) {
    forall i, j :: 0 <= i < j < |list| ==> list[i].session != list[j].session
  }

  /** Adding an entry; past the limit the oldest is dropped from the list, and its id from the table. */
  function Created(s: State, max: nat, e: Entry): State {
    var list, table := [e] + s.list, s.table[e.session := e];
    if |list| > max then
      var last := list[|list| - 1];
      State(list[..|list| - 1], table - {last.session})
    else State(list, table)
  }

  /** The dropped entry's id is also that of a younger entry. */
  predicate Doubled(s: State, max: nat, e: Entry) {
    var list := [e] + s.list;
    |list| > max && Occurs(list[..|list| - 1], list[|list| - 1].session)
  }

  lemma NewestCons(e: Entry, list: seq<Entry>, session: seq<byte>)
    ensures Newest([e] + list, session) == if e.session == session then Some(e) else Newest(list, session)
  {
    assert ([e] + list)[1..] == list;
  }

  lemma NewestNone(session: seq<byte>)
    ensures Newest([], session) == None && !Occurs([], session)
  {
  }

  lemma {:induction false} NewestInit(list: seq<Entry>, session: seq<byte>)
    requires list != []
    ensures var init, last := list[..|list| - 1], list[|list| - 1];
            Newest(list, session) == if Occurs(init, session) then Newest(init, session)
                                     else if last.session == session then Some(last) else None
  {
    hide Newest, Occurs;
    var init, last := list[..|list| - 1], list[|list| - 1];
    if |list| == 1 {
      assert list == [last] + [] && init == [];
      NewestCons(last, [], session);
      NewestNone(session);
    } else {
      assert list == [list[0]] + list[1..] && init == [list[0]] + init[1..];
      assert init[1..] == list[1..][..|list[1..]| - 1];
      NewestInit(list[1..], session);
      NewestCons(list[0], list[1..], session);
      NewestCons(list[0], init[1..], session);
    }
  }

  /** Table and list go on agreeing exactly when the id dropped is not still in use. */
  lemma CreateAgreesIff(s: State, max: nat, e: Entry)
    requires Agrees(s)
    ensures Agrees(Created(s, max, e)) <==> !Doubled(s, max, e)
  {
    hide Newest;
    var list, table := [e] + s.list, s.table[e.session := e];
    assert Agrees(State(list, table)) by {
      forall session
        ensures if session in table then Newest(list, session) == Some(table[session]) else Newest(list, session) == None
      {
        NewestCons(e, s.list, session);
      }
    }
    if |list| > max {
      DropAgreesIff(State(list, table));
    }
  }

  lemma DropAgreesIff(s: State)
    requires Agrees(s) && s.list != []
    ensures var last := s.list[|s.list| - 1];
            Agrees(State(s.list[..|s.list| - 1], s.table - {last.session})) <==> !Occurs(s.list[..|s.list| - 1], last.session)
  {
    hide Newest;
    var init, last := s.list[..|s.list| - 1], s.list[|s.list| - 1];
    var dropped := State(init, s.table - {last.session});
    forall session
      ensures session != last.session ==> Newest(init, session) == Newest(s.list, session)
    {
      NewestInit(s.list, session);
    }
    if Occurs(init, last.session) {
      assert last.session !in dropped.table && Newest(init, last.session).Some?;
    } else {
      forall session
        ensures if session in dropped.table then Newest(init, session) == Some(dropped.table[session]) else Newest(init, session) == None
      {
      }
    }
  }

  /** A session created twice, with room for one entry: the younger one is lost from the table. */
  lemma DoubledLosesSession()
    ensures exists s, e :: Agrees(s) && |s.list| <= 1 && Doubled(s, 1, e) && !Agrees(Created(s, 1, e))
  {
    var e := Entry([7], [1], 1, None, 0);
    var s := State([e], map[[7] := e]);
    assert Agrees(s) by {
      forall session
        ensures if session in s.table then Newest(s.list, session) == Some(s.table[session]) else Newest(s.list, session) == None
      {
        assert s.list == [e] + [];
        NewestCons(e, [], session);
      }
    }
    var list := [e] + s.list;
    assert list[..|list| - 1][0].session == [7];
    assert Doubled(s, 1, e);
    CreateAgreesIff(s, 1, e);
  }

  /** What every creation of an id not in the cache keeps. */
  ghost predicate Good(s: State, max: nat) {
    Agrees(s) && Unique(s.list) && |s.list| <= max
  }

  lemma FreshKeepsGood(s: State, max: nat, e: Entry)
    requires Good(s, max) && !Occurs(s.list, e.session)
    ensures Good(Created(s, max, e), max)
    ensures Created(s, max, e).list == ([e] + s.list)[..Min(max, |s.list| + 1)]
  {
    hide Newest;
    var list := [e] + s.list;
    assert Unique(list) by {
      assert forall i :: 0 < i < |list| ==> list[i] == s.list[i - 1];
    }
    CreateAgreesIff(s, max, e);
  }

  /** A run of creations. */
  function CreatedAll(s: State, max: nat, es: seq<Entry>): State
    decreases |es|
  {
    if es == [] then s else CreatedAll(Created(s, max, es[0]), max, es[1..])
  }

  /** Every id created is not in the cache at that moment. */
  ghost predicate FreshRun(s: State, max: nat, es: seq<Entry>)
    decreases |es|
  {
    es != [] ==> !Occurs(s.list, es[0].session) && FreshRun(Created(s, max, es[0]), max, es[1..])
  }

  /** In every such run table and list agree, and the cache holds the newest entries, oldest evicted first. */
  lemma {:induction false} RunKeepsGood(s: State, max: nat, es: seq<Entry>)
    requires Good(s, max) && FreshRun(s, max, es)
    ensures Good(CreatedAll(s, max, es), max)
    ensures CreatedAll(s, max, es).list == (Reversed(es) + s.list)[..Min(max, |es| + |s.list|)]
    decreases |es|
  {
    hide Good, Created;
    if es != [] {
      var next := Created(s, max, es[0]);
      FreshKeepsGood(s, max, es[0]);
      RunKeepsGood(next, max, es[1..]);
      assert |s.list| <= max by { GoodSize(s, max); }
      assert Reversed(es) + s.list == Reversed(es[1..]) + ([es[0]] + s.list);
      PrefixOfPrefix(Reversed(es[1..]), [es[0]] + s.list, max);
    } else {
      GoodSize(s, max);
      assert Reversed(es) + s.list == s.list;
    }
  }

  lemma GoodSize(s: State, max: nat)
    requires Good(s, max)
    ensures |s.list| <= max
  {
  }

  function Reversed(es: seq<Entry>): (r: seq<Entry>)
    ensures |r| == |es|
  {
    if es == [] then [] else Reversed(es[1..]) + [es[0]]
  }

  lemma PrefixOfPrefix(a: seq<Entry>, b: seq<Entry>, max: nat)
    ensures var cut := b[..Min(max, |b|)];
            (a + cut)[..Min(max, |a| + |cut|)] == (a + b)[..Min(max, |a| + |b|)]
  {
  }

  /** The age as computed in 32 bits. */
  function Age(now: nat, t: nat): nat {
    (now - t) % U32_LIMIT
  }

  predicate IdFits(asked: Option<Id>, bound: Option<Id>) {
    asked.None? || bound.None? || asked == bound
  }

  /** What a lookup returns for the entry it finds: a suite of 0 means nothing. */
  function Resumed(e: Option<Entry>, maxAge: nat, id: Option<Id>, now: nat): (nat, seq<byte>) {
    if e.Some? && Age(now, e.value.t) <= maxAge && IdFits(id, e.value.id) then (e.value.suite, e.value.master) else (0, [])
  }

  /** The entry is young enough and bound to the identity. */
  predicate Offered(e: Entry, maxAge: nat, id: Id, now: nat) {
    e.t + maxAge >= now && e.id == Some(id)
  }

  /** The newest session to offer for an identity; empty if there is none. */
  function Checked(list: seq<Entry>, maxAge: nat, id: Id, now: nat): seq<byte> {
    if list == [] then [] else if Offered(list[0], maxAge, id, now) then list[0].session else Checked(list[1..], maxAge, id, now)
  }

  lemma {:induction false} CheckedEntry(list: seq<Entry>, maxAge: nat, id: Id, now: nat)
    requires Checked(list, maxAge, id, now) != []
    ensures exists i :: 0 <= i < |list| && Offered(list[i], maxAge, id, now) && list[i].session == Checked(list, maxAge, id, now)
  {
    if Offered(list[0], maxAge, id, now) {
      assert list[0].session == Checked(list, maxAge, id, now);
    } else {
      CheckedEntry(list[1..], maxAge, id, now);
      var i :| 0 <= i < |list[1..]| && Offered(list[1..][i], maxAge, id, now) && list[1..][i].session == Checked(list[1..], maxAge, id, now);
      assert list[i + 1] == list[1..][i];
    }
  }

  /** In fields: the first session of the list that is bound to the identity and no older than allowed is offered. */
  lemma {:induction false} CheckedFirst(list: seq<Entry>, maxAge: nat, id: Id, now: nat, k: nat)
    requires k <= |list| && forall j :: 0 <= j < k ==> !(list[j].id == Some(id) && now - list[j].t <= maxAge)
    requires k < |list| ==> list[k].id == Some(id) && now - list[k].t <= maxAge
    ensures Checked(list, maxAge, id, now) == if k < |list| then list[k].session else []
  {
    if list != [] && k > 0 {
      assert forall j :: 0 <= j < k - 1 ==> list[1..][j] == list[j + 1];
      CheckedFirst(list[1..], maxAge, id, now, k - 1);
    }
  }

  lemma {:induction false} UniqueNewest(list: seq<Entry>, i: nat)
    requires Unique(list) && i < |list|
    ensures Newest(list, list[i].session) == Some(list[i])
  {
    if i > 0 {
      assert list[0].session != list[i].session;
      assert list[1..][i - 1] == list[i];
      UniqueNewest(list[1..], i - 1);
    }
  }

  /** A session offered for an identity is resumed for that identity at that time. */
  lemma CheckedIsResumed(s: State, max: nat, maxAge: nat, id: Id, now: nat)
    requires Good(s, max) && maxAge < U32_LIMIT
    requires forall i :: 0 <= i < |s.list| ==> s.list[i].t <= now && s.list[i].suite > 0
    requires Checked(s.list, maxAge, id, now) != []
    ensures var session := Checked(s.list, maxAge, id, now);
            && session in s.table
            && Resumed(Some(s.table[session]), maxAge, Some(id), now) == (s.table[session].suite, s.table[session].master)
            && s.table[session].suite > 0 && s.table[session].id == Some(id)
  {
    hide Newest, Checked;
    CheckedEntry(s.list, maxAge, id, now);
    var session := Checked(s.list, maxAge, id, now);
    var i :| 0 <= i < |s.list| && Offered(s.list[i], maxAge, id, now) && s.list[i].session == session;
    UniqueNewest(s.list, i);
    assert Newest(s.list, session) == Some(s.list[i]);
    assert Age(now, s.list[i].t) == now - s.list[i].t;
  }

  /** The 32-bit age is the age for entries younger than 2^32 seconds; an older one can look young again. */
  lemma AgeExact(now: nat, t: nat, maxAge: nat)
    requires t <= now && maxAge < U32_LIMIT
    ensures now - t < U32_LIMIT ==> (Age(now, t) <= maxAge <==> now - t <= maxAge)
    ensures Age(t + U32_LIMIT, t) <= maxAge && t + U32_LIMIT - t > maxAge
  {
  }

  class Cache {
    const maxSessions: nat
    const maxAge: nat
    var list: seq<Entry>
    var table: map<seq<byte>, Entry>

    function Now(): State
      reads this
    {
      State(list, table)
    }

    constructor (maxSessions: nat, maxAge: nat)
      ensures this.maxSessions == maxSessions && this.maxAge == maxAge && list == [] && Good(Now(), maxSessions)
    {
      this.maxSessions, this.maxAge := maxSessions, maxAge;
      list, table := [], map[];
    }

    method Create(session: seq<byte>, id: Option<Id>, master: seq<byte>, suite: nat, now: nat)
      modifies this
      ensures Now() == Created(old(Now()), maxSessions, Entry(session, master, suite, id, now))
      ensures old(Good(Now(), maxSessions)) && !Occurs(old(list), session) ==> Good(Now(), maxSessions)
    {
      hide Good, Occurs;
      var e := Entry(session, master, suite, id, now);
      if old(Good(Now(), maxSessions)) && !Occurs(old(list), session) {
        FreshKeepsGood(old(Now()), maxSessions, e);
      }
      list := [e] + list;
      table := table[session := e];
      if |list| > maxSessions {
        var last := list[|list| - 1];
        list := list[..|list| - 1];
        table := table - {last.session};
      }
    }

    /** By the table, and so, while it agrees, by the newest entry of the list. */
    method Lookup(session: seq<byte>, id: Option<Id>, now: nat) returns (suite: nat, master: seq<byte>)
      ensures (suite, master) == Resumed(if session in table then Some(table[session]) else None, maxAge, id, now)
      ensures Agrees(Now()) ==> (suite, master) == Resumed(Newest(list, session), maxAge, id, now)
      ensures session !in table ==> suite == 0 && master == []
      ensures session in table && table[session].t <= now < table[session].t + U32_LIMIT ==>
                var e := table[session];
                var resumed := now - e.t <= maxAge && !(id.Some? && e.id.Some? && id != e.id);
                suite == (if resumed then e.suite else 0) && master == (if resumed then e.master else [])
    {
      hide Newest;
      suite, master := 0, [];
      if session in table {
        var e := table[session];
        if Age(now, e.t) <= maxAge {
          if id.None? || e.id.None? || id == e.id {
            suite, master := e.suite, e.master;
          }
        }
      }
    }

    method Check(id: Id, now: nat) returns (session: seq<byte>)
      ensures session == Checked(list, maxAge, id, now)
      ensures Good(Now(), maxSessions) && maxAge < U32_LIMIT && session != [] &&
              (forall i :: 0 <= i < |list| ==> list[i].t <= now && list[i].suite > 0) ==>
                session in table && Resumed(Some(table[session]), maxAge, Some(id), now).0 > 0
    {
      hide Good;
      session := [];
      var i := 0;
      assert list[0..] == list;
      while i < |list|
        invariant i <= |list| && Checked(list, maxAge, id, now) == Checked(list[i..], maxAge, id, now)
      {
        if Offered(list[i], maxAge, id, now) {
          session := list[i].session;
          break;
        }
        assert list[i..][1..] == list[i + 1..];
        i := i + 1;
      }
      if Good(Now(), maxSessions) && maxAge < U32_LIMIT && session != [] &&
         (forall i :: 0 <= i < |list| ==> list[i].t <= now && list[i].suite > 0) {
        CheckedIsResumed(Now(), maxSessions, maxAge, id, now);
      }
    }
  }
}
