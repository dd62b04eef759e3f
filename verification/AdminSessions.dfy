/** Sessions of the administrator page. The table is swept of timed-out sessions at every eleventh
    creation only; no answer of the page shows it. */
module AdminSessions {
  import opened Tables

  const TIMEOUT_SECONDS := 30 * 60
  const CREATIONS_BETWEEN_SWEEPS := 10

  datatype Session = Session(guid: string, ip: string, account: string, level: int, verifyTime: int)

  datatype Code = Ok | NotExists | Timeout | AddressError

  // Addresses.

  /** The parts of s between its colons. */
  function Split(s: string): (parts: seq<string>)
    ensures parts != []
  {
    if s == "" then [""]
    else
      var rest := Split(s[1..]);
      if s[0] == ':' then [""] + rest else [[s[0]] + rest[0]] + rest[1..]
  }

  lemma {:induction false} SplitPlain(s: string)
    requires ':' !in s
    ensures Split(s) == [s]
  {
    if s != "" {
      SplitPlain(s[1..]);
      assert [s[0]] + s[1..] == s;
    }
  }

  lemma {:induction false} SplitPair(ip: string, port: string)
    requires ':' !in ip && ':' !in port
    ensures Split(ip + ":" + port) == [ip, port]
  {
    var s := ip + ":" + port;
    if ip == "" {
      assert s[1..] == port;
      SplitPlain(port);
    } else {
      SplitPair(ip[1..], port);
      assert s[1..] == ip[1..] + ":" + port;
      assert [ip[0]] + ip[1..] == ip;
    }
  }

  lemma {:induction false} OnePart(s: string)
    requires |Split(s)| == 1
    ensures ':' !in s && Split(s) == [s]
  {
    if s != "" {
      OnePart(s[1..]);
      assert [s[0]] + s[1..] == s;
    }
  }

  lemma {:induction false} TwoParts(s: string)
    requires |Split(s)| == 2
    ensures ':' !in Split(s)[0] && ':' !in Split(s)[1] && s == Split(s)[0] + ":" + Split(s)[1]
  {
    if s[0] == ':' {
      OnePart(s[1..]);
      assert s == ":" + s[1..];
    } else {
      TwoParts(s[1..]);
      assert s == [s[0]] + s[1..];
    }
  }

  /** An address has two parts exactly if it has one colon, and they are what stands before and after it. */
  lemma {:induction false} TwoPartsExactly(s: string, ip: string, port: string)
    ensures Split(s) == [ip, port] <==> s == ip + ":" + port && ':' !in ip && ':' !in port
  {
    if |Split(s)| == 2 {
      TwoParts(s);
    }
    if s == ip + ":" + port && ':' !in ip && ':' !in port {
      SplitPair(ip, port);
    }
  }

  // The table and the checks, as values.

  datatype State = State(table: map<string, Session>, times: int)

  predicate Admitted(address: string, account: string)
  {
    address != "" && account != "" && |Split(address)| == 2
  }

  function Issued(address: string, account: string, level: int, now: int, guid: string): Session
  {
    Session(guid, Split(address)[0], account, level, now)
  }

  function Swept(table: map<string, Session>, now: int): map<string, Session>
  {
    map g | g in table && now - table[g].verifyTime <= TIMEOUT_SECONDS :: table[g]
  }

  function Created(st: State, address: string, account: string, level: int, now: int, guid: string): State
  {
    if !Admitted(address, account) then st
    else
      var table := st.table[guid := Issued(address, account, level, now, guid)];
      if st.times + 1 > CREATIONS_BETWEEN_SWEEPS then State(Swept(table, now), 0) else State(table, st.times + 1)
  }

  function Find(table: map<string, Session>, guid: string): Option<Session>
  {
    if guid in table then Some(table[guid]) else None
  }

  function Check(address: string, session: Option<Session>, now: int): Code
  {
    match session
    case None => NotExists
    case Some(s) =>
      if now - s.verifyTime > TIMEOUT_SECONDS then Timeout
      else if |Split(address)| != 2 || Split(address)[0] != s.ip then AddressError
      else Ok
  }

  /** The keys of the table, once each: an order in which a range loop may visit them. */
  ghost predicate IsOrder(order: seq<string>, table: map<string, Session>)
  {
    && (forall g :: g in order <==> g in table)
    && forall i, j | 0 <= i < j < |order| :: order[i] != order[j]
  }

  function SweptTo(table: map<string, Session>, seen: seq<string>, now: int): map<string, Session>
  {
    map g | g in table && (g in seen ==> now - table[g].verifyTime <= TIMEOUT_SECONDS) :: table[g]
  }

  lemma SweepNext(table: map<string, Session>, order: seq<string>, i: nat, now: int)
    requires IsOrder(order, table) && i < |order|
    ensures order[i] in SweptTo(table, order[..i], now)
    ensures SweptTo(table, order[..i + 1], now) ==
            if now - table[order[i]].verifyTime > TIMEOUT_SECONDS then SweptTo(table, order[..i], now) - {order[i]}
            else SweptTo(table, order[..i], now)
  {
    assert order[..i + 1] == order[..i] + [order[i]];
  }

  lemma SweptAll(table: map<string, Session>, order: seq<string>, now: int)
    requires IsOrder(order, table)
    ensures SweptTo(table, order[..|order|], now) == Swept(table, now)
  {
    assert order[..|order|] == order;
  }

  // The table as the program keeps it.

  class AdminHandlerSessions {
    var sessions: map<string, Session>
    var operateTimes: int

    ghost function Contents(): State
      reads this
    {
      State(sessions, operateTimes)
    }

    constructor ()
      ensures Contents() == State(map[], 0)
    {
      sessions, operateTimes := map[], 0;
    }

    /** order is the order in which the sweep, if there is one, visits the table. */
    method NewAdminHandlerSession(address: string, account: string, level: int, now: int, guid: string,
                                  order: seq<string>)
      returns (session: Option<Session>)
      requires IsOrder(order, sessions[guid := Issued(address, account, level, now, guid)])
      modifies this
      ensures Contents() == Created(old(Contents()), address, account, level, now, guid)
      ensures session.Some? <==> address != "" && account != "" && |Split(address)| == 2
      ensures session.Some? ==> session.value == Session(guid, Split(address)[0], account, level, now)
      ensures session.Some? ==> guid in sessions && sessions[guid] == session.value
      ensures session.None? ==> Contents() == old(Contents())
    {
      if |address| == 0 || |account| == 0 {
        return None;
      }
      var stringList := Split(address);
      if |stringList| != 2 {
        return None;
      }
      var s := Session(guid, stringList[0], account, level, now);
      operateTimes := operateTimes + 1;
      sessions := sessions[guid := s];
      if operateTimes > CREATIONS_BETWEEN_SWEEPS {
        operateTimes := 0;
        Sweep(now, order);
      }
      session := Some(s);
    }

    method Sweep(now: int, order: seq<string>)
      requires IsOrder(order, sessions)
      modifies `sessions
      ensures sessions == Swept(old(sessions), now)
    {
      for i := 0 to |order|
        invariant sessions == SweptTo(old(sessions), order[..i], now)
      {
        var k := order[i];
        SweepNext(old(sessions), order, i, now);
        if now - sessions[k].verifyTime > TIMEOUT_SECONDS {
          sessions := sessions - {k};
        }
      }
      SweptAll(old(sessions), order, now);
    }

    method DelAdminHandlerSession(guid: string)
      modifies `sessions
      ensures sessions == old(sessions) - {guid}
    {
      sessions := sessions - {guid};
    }

    method GetAdminHandlerSession(guid: string) returns (session: Option<Session>)
      ensures session == Find(sessions, guid)
    {
      if guid !in sessions {
        return None;
      }
      session := Some(sessions[guid]);
    }
  }

  /** A request is let in exactly if its session is known and at most half an hour old, and it comes
      from the session's address, written as an address and a port with no colon but the one between them. */
  method CheckAdminHandlerSession(address: string, session: Option<Session>, now: int) returns (code: Code)
    ensures code == Check(address, session, now)
    ensures code == NotExists <==> session.None?
    ensures code == Timeout <==> session.Some? && now - session.value.verifyTime > 1800
    ensures code == Ok <==> && session.Some? && now - session.value.verifyTime <= 1800
                            && exists port :: ':' !in port && ':' !in session.value.ip
                                              && address == session.value.ip + ":" + port
  {
    if session == None {
      return NotExists;
    }
    if now - session.value.verifyTime > TIMEOUT_SECONDS {
      return Timeout;
    }
    ghost var ip := session.value.ip;
    var stringList := Split(address);
    forall port | ':' !in port && ':' !in ip && address == ip + ":" + port ensures stringList == [ip, port] {
      SplitPair(ip, port);
    }
    if |stringList| != 2 {
      return AddressError;
    }
    if stringList[0] != session.value.ip {
      return AddressError;
    }
    TwoParts(address);
    return Ok;
  }

  // Whole runs, beside a table that is never swept.

  datatype Event =
    | Create(address: string, account: string, level: int, now: int, guid: string)
    | Delete(guid: string)

  function Next(st: State, e: Event): State
  {
    match e
    case Create(address, account, level, now, guid) => Created(st, address, account, level, now, guid)
    case Delete(guid) => st.(table := st.table - {guid})
  }

  /** The swept table after the first i events. */
  function At(es: seq<Event>, i: nat): State
    requires i <= |es|
  {
    if i == 0 then State(map[], 0) else Next(At(es, i - 1), es[i - 1])
  }

  function Keep(table: map<string, Session>, e: Event): map<string, Session>
  {
    match e
    case Create(address, account, level, now, guid) =>
      if Admitted(address, account) then table[guid := Issued(address, account, level, now, guid)] else table
    case Delete(guid) => table - {guid}
  }

  /** The table that is never swept. */
  function Kept(es: seq<Event>, i: nat): map<string, Session>
    requires i <= |es|
  {
    if i == 0 then map[] else Keep(Kept(es, i - 1), es[i - 1])
  }

  ghost predicate NotBefore(es: seq<Event>, i: nat, now: int)
    requires i <= |es|
  {
    forall m | 0 <= m < i && es[m].Create? :: es[m].now <= now
  }

  /** The clock readings do not decrease; deletions read no clock. */
  ghost predicate ClockRuns(es: seq<Event>)
  {
    forall i | 0 <= i < |es| && es[i].Create? :: NotBefore(es, i, es[i].now)
  }

  /** table is kept without some sessions that have timed out by now. */
  ghost predicate LacksOnlyTimedOut(table: map<string, Session>, kept: map<string, Session>, now: int)
  {
    && (forall g | g in table :: g in kept && table[g] == kept[g])
    && forall g | g in kept && g !in table :: now - kept[g].verifyTime > TIMEOUT_SECONDS
  }

  lemma NextLacksOnlyTimedOut(st: State, kept: map<string, Session>, e: Event, before: int, now: int)
    requires LacksOnlyTimedOut(st.table, kept, before) && before <= now && (e.Create? ==> before == e.now)
    ensures LacksOnlyTimedOut(Next(st, e).table, Keep(kept, e), now)
  {
  }

  lemma {:induction false} SweptLacksOnlyTimedOut(es: seq<Event>, i: nat, now: int)
    requires ClockRuns(es) && i <= |es| && NotBefore(es, i, now)
    ensures LacksOnlyTimedOut(At(es, i).table, Kept(es, i), now)
  {
    if i > 0 {
      var e := es[i - 1];
      var before := if e.Create? then e.now else now;
      SweptLacksOnlyTimedOut(es, i - 1, before);
      NextLacksOnlyTimedOut(At(es, i - 1), Kept(es, i - 1), e, before, now);
    }
  }

  /** Whatever was created and deleted before, and whichever of the creations swept the table: a
      request is let in exactly if it would be had there been no sweep. All a sweep changes is that a
      timed-out session may be reported as unknown. */
  lemma {:induction false} SweepUnobservable(es: seq<Event>, i: nat, address: string, guid: string, now: int)
    requires ClockRuns(es) && i <= |es| && NotBefore(es, i, now)
    ensures var code := Check(address, Find(At(es, i).table, guid), now);
            var unswept := Check(address, Find(Kept(es, i), guid), now);
            && (code == Ok <==> unswept == Ok)
            && (code != unswept <==> guid in Kept(es, i) && guid !in At(es, i).table)
            && (code != unswept ==> code == NotExists && unswept == Timeout)
  {
    SweptLacksOnlyTimedOut(es, i, now);
  }

  /** Event m issued the session of guid that holds after i events. */
  ghost predicate IssuedAt(es: seq<Event>, m: nat, i: nat, guid: string)
    requires i <= |es|
  {
    && m < i && Issues(es[m], guid)
    && forall n | m < n < i :: !Issues(es[n], guid) && es[n] != Delete(guid)
  }

  predicate Issues(e: Event, guid: string)
  {
    e.Create? && e.guid == guid && Admitted(e.address, e.account)
  }

  lemma {:induction false} KeptSession(es: seq<Event>, m: nat, i: nat, guid: string)
    requires i <= |es| && IssuedAt(es, m, i, guid)
    ensures var e := es[m];
            guid in Kept(es, i) && Kept(es, i)[guid] == Issued(e.address, e.account, e.level, e.now, guid)
  {
    if m < i - 1 {
      KeptSession(es, m, i - 1, guid);
      assert !Issues(es[i - 1], guid) && es[i - 1] != Delete(guid);
    }
  }

  lemma {:induction false} KeptIssued(es: seq<Event>, i: nat, guid: string) returns (m: nat)
    requires i <= |es| && guid in Kept(es, i)
    ensures IssuedAt(es, m, i, guid)
  {
    if Issues(es[i - 1], guid) {
      m := i - 1;
    } else {
      m := KeptIssued(es, i - 1, guid);
    }
  }

  /** A request is let in exactly if some creation in the last half hour issued its guid to its
      address, and the guid was neither deleted nor issued again since. */
  lemma {:induction false} LetInExactly(es: seq<Event>, i: nat, address: string, guid: string, now: int)
    requires ClockRuns(es) && i <= |es| && NotBefore(es, i, now)
    ensures Check(address, Find(At(es, i).table, guid), now) == Ok <==>
            exists m: nat | IssuedAt(es, m, i, guid) ::
              && now - es[m].now <= 1800
              && |Split(address)| == 2 && Split(address)[0] == Split(es[m].address)[0]
  {
    SweepUnobservable(es, i, address, guid, now);
    forall m: nat | IssuedAt(es, m, i, guid) ensures Kept(es, i).Keys >= {guid} {
      KeptSession(es, m, i, guid);
    }
    if guid in Kept(es, i) {
      var m := KeptIssued(es, i, guid);
      KeptSession(es, m, i, guid);
      assert forall n: nat | IssuedAt(es, n, i, guid) :: n == m;
    }
  }

  // When the table is swept.

  /** How many sessions the first i events create. */
  function Creations(es: seq<Event>, i: nat): nat
    requires i <= |es|
  {
    if i == 0 then 0
    else Creations(es, i - 1) + if es[i - 1].Create? && Issues(es[i - 1], es[i - 1].guid) then 1 else 0
  }

  lemma {:induction false} NextTimes(st: State, e: Event)
    ensures Next(st, e).times ==
            if !(e.Create? && Issues(e, e.guid)) then st.times else if st.times >= 10 then 0 else st.times + 1
  {
  }

  lemma OneMoreOfEleven(n: nat)
    ensures (n + 1) % 11 == if n % 11 == 10 then 0 else n % 11 + 1
  {
  }

  lemma {:induction false} CountsCreations(es: seq<Event>, i: nat)
    requires i <= |es|
    ensures At(es, i).times == Creations(es, i) % 11
  {
    if i > 0 {
      CountsCreations(es, i - 1);
      NextTimes(At(es, i - 1), es[i - 1]);
      OneMoreOfEleven(Creations(es, i - 1));
    }
  }

  /** At every eleventh creation the table is left with exactly the sessions at most half an hour old, the
      new one among them; at any other it is left with all it had and the new one. */
  lemma {:induction false} SweepsEveryEleventh(es: seq<Event>, i: nat)
    requires i < |es| && es[i].Create? && Issues(es[i], es[i].guid)
    ensures var e, before, after := es[i], At(es, i).table, At(es, i + 1).table;
            var all := before[e.guid := Session(e.guid, Split(e.address)[0], e.account, e.level, e.now)];
            && e.guid in after
            && (forall g | g in after :: g in all && after[g] == all[g])
            && (Creations(es, i + 1) % 11 == 0 ==> forall g | g in all :: g in after <==> e.now - all[g].verifyTime <= 1800)
            && (Creations(es, i + 1) % 11 != 0 ==> after == all)
  {
    CountsCreations(es, i);
  }
}
