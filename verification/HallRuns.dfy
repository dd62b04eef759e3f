/** What holds over whole runs of the hall registry: an id never changes hands, and a server keeps
    its id exactly as long as nobody removes it and no sweep finds it silent for too long. */
module HallRuns {
  import opened Hall

  datatype Event = Register(gs: GameServer, now: int) | Remove(id: int) | Sweep(now: int)

  function Next(h: Registry, e: Event): Registry
  {
    match e
    case Register(gs, now) => Registered(h, gs, now)
    case Remove(id) => Removed(h, id)
    case Sweep(now) => Swept(h, now)
  }

  /** The registry after the first i events, from the empty one the program starts with. */
  function At(es: seq<Event>, i: nat): Registry
    requires i <= |es|
  {
    if i == 0 then Registry(map[], 0) else Next(At(es, i - 1), es[i - 1])
  }

  predicate Present(h: Registry, k: string, id: int)
  {
    k in h.servers && h.servers[k].id == id
  }

  lemma NextNumbered(h: Registry, e: Event)
    requires Numbered(h)
    ensures Numbered(Next(h, e)) && h.seed <= Next(h, e).seed
  {
    match e
    case Register(gs, now) => RegisteredNumbered(h, gs, now);
    case Remove(id) => DropNumbered(h, Removed(h, id));
    case Sweep(now) => DropNumbered(h, Swept(h, now));
  }

  lemma NextFiled(h: Registry, e: Event)
    requires Filed(h)
    ensures Filed(Next(h, e))
  {
  }

  lemma {:induction false} RunNumbered(es: seq<Event>, i: nat)
    requires i <= |es|
    ensures Numbered(At(es, i)) && Filed(At(es, i))
  {
    if i > 0 {
      RunNumbered(es, i - 1);
      NextNumbered(At(es, i - 1), es[i - 1]);
      NextFiled(At(es, i - 1), es[i - 1]);
    }
  }

  lemma {:induction false} SeedGrows(es: seq<Event>, i: nat, j: nat)
    requires i <= j <= |es|
    ensures At(es, i).seed <= At(es, j).seed
    decreases j
  {
    if i < j {
      SeedGrows(es, i, j - 1);
      RunNumbered(es, j - 1);
      NextNumbered(At(es, j - 1), es[j - 1]);
    }
  }

  lemma StaysAbsent(h: Registry, e: Event, k: string, id: int)
    requires id <= h.seed && !Present(h, k, id)
    ensures !Present(Next(h, e), k, id)
  {
  }

  /** An id that is gone from its key does not come back to it, nor goes to any other key. */
  lemma {:induction false} NeverReturns(es: seq<Event>, i: nat, j: nat, k: string, id: int)
    requires i <= j <= |es| && id <= At(es, i).seed
    requires !Present(At(es, i), k, id)
    ensures !Present(At(es, j), k, id)
    decreases j
  {
    if i < j {
      NeverReturns(es, i, j - 1, k, id);
      SeedGrows(es, i, j - 1);
      StaysAbsent(At(es, j - 1), es[j - 1], k, id);
    }
  }

  /** Whenever in a run an id is listed, it stands for the same address and port, however often
      servers expired, were removed or registered again in between. */
  lemma IdMeansAddress(es: seq<Event>, i: nat, j: nat, k: string, l: string, id: int)
    requires i <= j <= |es|
    requires Present(At(es, i), k, id) && Present(At(es, j), l, id)
    ensures k == l
    ensures At(es, i).servers[k].address == At(es, j).servers[l].address
    ensures At(es, i).servers[k].port == At(es, j).servers[l].port
  {
    RunNumbered(es, i);
    RunNumbered(es, j);
    if k != l {
      assert !Present(At(es, i), l, id);
      NeverReturns(es, i, j, l, id);
    }
    var a, b := At(es, i).servers[k], At(es, j).servers[l];
    KeyInjective(a.address, a.port, b.address, b.port);
  }

  /** Two registrations one after the other get the same id exactly if they are for the same address and port. */
  lemma SameIdSameServer(h: Registry, a: GameServer, b: GameServer, t: int, u: int)
    requires Numbered(h) && Filed(h)
    ensures var once := Registered(h, a, t);
            var twice := Registered(once, b, u);
            once.servers[Key(a.address, a.port)].id == twice.servers[Key(b.address, b.port)].id
            <==> a.address == b.address && a.port == b.port
  {
    RegisteredNumbered(h, a, t);
    var once := Registered(h, a, t);
    RegisteredNumbered(once, b, u);
    var twice := Registered(once, b, u);
    var k, l := Key(a.address, a.port), Key(b.address, b.port);
    assert k in twice.servers && twice.servers[k].id == once.servers[k].id;
    KeyInjective(a.address, a.port, b.address, b.port);
  }

  // How long a server keeps its id.

  predicate Hears(e: Event, k: string)
  {
    e.Register? && Key(e.gs.address, e.gs.port) == k
  }

  /** When the server under k was last heard of before event j, if that was at t before event i. */
  function LastHeard(es: seq<Event>, k: string, t: int, i: nat, j: nat): int
    requires i <= j <= |es|
    decreases j
  {
    if i == j then t
    else if Hears(es[j - 1], k) then es[j - 1].now
    else LastHeard(es, k, t, i, j - 1)
  }

  /** Event m neither removes the id nor sweeps its server away. */
  predicate Spares(es: seq<Event>, k: string, id: int, t: int, i: nat, m: nat)
    requires i <= m < |es|
  {
    match es[m]
    case Register(_, _) => true
    case Remove(x) => x != id
    case Sweep(now) => now - LastHeard(es, k, t, i, m) <= OFFLINE_SECONDS
  }

  lemma SparedStep(h: Registry, es: seq<Event>, k: string, id: int, t: int, i: nat, m: nat)
    requires i <= m < |es| && Present(h, k, id) && h.servers[k].lastLive == LastHeard(es, k, t, i, m)
    ensures Present(Next(h, es[m]), k, id) <==> Spares(es, k, id, t, i, m)
    ensures Present(Next(h, es[m]), k, id) ==> Next(h, es[m]).servers[k].lastLive == LastHeard(es, k, t, i, m + 1)
  {
  }

  ghost predicate AllSpare(es: seq<Event>, k: string, id: int, t: int, i: nat, j: nat)
    requires i <= j <= |es|
  {
    forall m | i <= m < j :: Spares(es, k, id, t, i, m)
  }

  lemma AllSpareNext(es: seq<Event>, k: string, id: int, t: int, i: nat, j: nat)
    requires i <= j < |es|
    ensures AllSpare(es, k, id, t, i, j + 1) <==> AllSpare(es, k, id, t, i, j) && Spares(es, k, id, t, i, j)
  {
  }

  /** The server is there with its id after event j exactly if it was before it and the event spared it. */
  lemma KeptStep(es: seq<Event>, k: string, id: int, t: int, i: nat, j: nat)
    requires i <= j < |es| && id <= At(es, j).seed
    requires Present(At(es, j), k, id) ==> At(es, j).servers[k].lastLive == LastHeard(es, k, t, i, j)
    ensures Present(At(es, j + 1), k, id) <==> Present(At(es, j), k, id) && Spares(es, k, id, t, i, j)
    ensures Present(At(es, j + 1), k, id) ==> At(es, j + 1).servers[k].lastLive == LastHeard(es, k, t, i, j + 1)
  {
    if Present(At(es, j), k, id) {
      SparedStep(At(es, j), es, k, id, t, i, j);
    } else {
      StaysAbsent(At(es, j), es[j], k, id);
    }
  }

  ghost predicate KeptUntil(es: seq<Event>, k: string, id: int, t: int, i: nat, j: nat)
    requires i <= j <= |es|
  {
    && id <= At(es, j).seed
    && (Present(At(es, j), k, id) <==> AllSpare(es, k, id, t, i, j))
    && (Present(At(es, j), k, id) ==> At(es, j).servers[k].lastLive == LastHeard(es, k, t, i, j))
  }

  lemma KeptUntilNext(es: seq<Event>, k: string, id: int, t: int, i: nat, j: nat)
    requires i <= j < |es| && KeptUntil(es, k, id, t, i, j)
    ensures KeptUntil(es, k, id, t, i, j + 1)
  {
    SeedGrows(es, j, j + 1);
    KeptStep(es, k, id, t, i, j);
    AllSpareNext(es, k, id, t, i, j);
  }

  lemma {:induction false} KeptFrom(es: seq<Event>, k: string, id: int, t: int, i: nat, j: nat)
    requires i <= j <= |es| && KeptUntil(es, k, id, t, i, i)
    ensures KeptUntil(es, k, id, t, i, j)
    decreases j
  {
    if i < j {
      KeptFrom(es, k, id, t, i, j - 1);
      KeptUntilNext(es, k, id, t, i, j - 1);
    }
  }

  /** A server that is in the registry with an id is there with that id some events later exactly if
      all of them spared it: once lost, the id is not given back even to the same address. */
  lemma {:induction false} IdKept(es: seq<Event>, i: nat, j: nat, k: string)
    requires i <= j <= |es| && k in At(es, i).servers
    ensures var s := At(es, i).servers[k];
            Present(At(es, j), k, s.id) <==> forall m | i <= m < j :: Spares(es, k, s.id, s.lastLive, i, m)
  {
    var s := At(es, i).servers[k];
    RunNumbered(es, i);
    KeptFrom(es, k, s.id, s.lastLive, i, j);
    assert AllSpare(es, k, s.id, s.lastLive, i, j) <==> forall m | i <= m < j :: Spares(es, k, s.id, s.lastLive, i, m);
  }

  /** The clock readings of the events do not decrease; removals read no clock. */
  ghost predicate ClockRuns(es: seq<Event>)
  {
    forall m, n | 0 <= m <= n < |es| && !es[m].Remove? && !es[n].Remove? :: es[m].now <= es[n].now
  }

  lemma {:induction false} HeardNext(es: seq<Event>, k: string, t: int, i: nat, m: nat, j: nat) returns (r: nat)
    requires i <= m < j <= |es| && Hears(es[j - 1], k)
    ensures m <= r < j && Hears(es[r], k)
    ensures LastHeard(es, k, t, i, r) == LastHeard(es, k, t, i, m)
    decreases j - m
  {
    if Hears(es[m], k) {
      r := m;
    } else {
      r := HeardNext(es, k, t, i, m + 1, j);
    }
  }

  /** A server that registers again within 90 seconds each time, and whose id is not removed, keeps
      its id, whenever the sweeps happen. */
  lemma {:induction false} RefreshingKeepsId(es: seq<Event>, i: nat, j: nat, k: string)
    requires ClockRuns(es) && i < j <= |es| && k in At(es, i).servers && Hears(es[j - 1], k)
    requires forall m | i <= m < j && es[m].Remove? :: es[m].id != At(es, i).servers[k].id
    requires forall r | i <= r < j && Hears(es[r], k) ::
               es[r].now - LastHeard(es, k, At(es, i).servers[k].lastLive, i, r) <= OFFLINE_SECONDS
    ensures Present(At(es, j), k, At(es, i).servers[k].id)
  {
    var s := At(es, i).servers[k];
    forall m | i <= m < j ensures Spares(es, k, s.id, s.lastLive, i, m) {
      if es[m].Sweep? {
        var r := HeardNext(es, k, s.lastLive, i, m, j);
        assert es[m].now <= es[r].now;
      }
    }
    IdKept(es, i, j, k);
  }
}
