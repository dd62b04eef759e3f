/** The registry of user game servers that the hall page lists: keyed by address and port, numbered
    by a seed, and swept of servers that have not been heard of for 90 seconds. */
module Hall {

  const OFFLINE_SECONDS := 90

  datatype GameServer = GameServer(
    id: int, address: string, port: int, note: string, online: int,
    password: string, version: string, lastLive: int)

  /** The zero value of a record. */
  const NO_SERVER := GameServer(0, "", 0, "", 0, "", "", 0)

  // Keys.

  function Digit(d: nat): char
    requires d < 10
  {
    ('0' as int + d) as char
  }

  /** The decimal digits of n, without leading zeros. */
  function Digits(n: nat): (r: string)
    ensures r != "" && forall c | c in r :: '0' <= c <= '9'
  {
    if n < 10 then [Digit(n)] else Digits(n / 10) + [Digit(n % 10)]
  }

  /** The number a string of digits denotes. */
  function Number(s: string): int
  {
    if s == "" then 0 else 10 * Number(s[..|s| - 1]) + (s[|s| - 1] as int - '0' as int)
  }

  function Itoa(n: int): string
  {
    if n < 0 then "-" + Digits(-n) else Digits(n)
  }

  function Key(address: string, port: int): string
  {
    address + ":" + Itoa(port)
  }

  lemma {:induction false} NumberOfDigits(n: nat)
    ensures Number(Digits(n)) == n
  {
    if n >= 10 {
      NumberOfDigits(n / 10);
      assert Digits(n)[..|Digits(n)| - 1] == Digits(n / 10);
    } else {
      assert Number([Digit(n)][..0]) == 0;
    }
  }

  lemma NoMinus(n: int)
    ensures Itoa(n)[0] == '-' <==> n < 0
  {
    if n >= 0 {
      assert Digits(n)[0] in Digits(n);
    }
  }

  lemma ItoaInjective(m: int, n: int)
    requires Itoa(m) == Itoa(n)
    ensures m == n
  {
    assert (m < 0) == (n < 0) by {
      NoMinus(m);
      NoMinus(n);
    }
    if m < 0 {
      assert Itoa(m)[1..] == Digits(-m) && Itoa(n)[1..] == Digits(-n);
      NumberOfDigits(-m);
      NumberOfDigits(-n);
    } else {
      NumberOfDigits(m);
      NumberOfDigits(n);
    }
  }

  lemma NoColon(n: int)
    ensures ':' !in Itoa(n)
  {
  }

  /** The colon before the port is the last one of the key. */
  lemma LastColon(address: string, port: int, address': string, port': int)
    requires |address| < |address'|
    ensures Key(address, port) != Key(address', port')
  {
    NoColon(port);
    assert Key(address', port')[|address'|] == ':';
    if |address'| < |Key(address, port)| {
      var c := Itoa(port)[|address'| - |address| - 1];
      assert c in Itoa(port);
      assert Key(address, port)[|address'|] == c;
    }
  }

  /** Whatever the addresses hold, colons included, two servers share a key only if they share
      address and port. */
  lemma KeyInjective(address: string, port: int, address': string, port': int)
    ensures Key(address, port) == Key(address', port') <==> address == address' && port == port'
  {
    if Key(address, port) == Key(address', port') {
      if |address| < |address'| {
        LastColon(address, port, address', port');
      } else if |address'| < |address| {
        LastColon(address', port', address, port);
      } else {
        SplitKey(address, port);
        SplitKey(address', port');
        ItoaInjective(port, port');
      }
    }
  }

  lemma SplitKey(address: string, port: int)
    ensures Key(address, port)[..|address|] == address
    ensures Key(address, port)[|address| + 1..] == Itoa(port)
  {
  }

  // The registry as a value, and what each operation makes of it.

  datatype Registry = Registry(servers: map<string, GameServer>, seed: int)

  /** Every server is filed under its own key. */
  ghost predicate Filed(h: Registry)
  {
    forall k | k in h.servers :: Key(h.servers[k].address, h.servers[k].port) == k
  }

  /** The ids are pairwise different numbers that the seed has passed. */
  ghost predicate Numbered(h: Registry)
  {
    && 0 <= h.seed
    && (forall k | k in h.servers :: 1 <= h.servers[k].id <= h.seed)
    && forall k, l | k in h.servers && l in h.servers && h.servers[k].id == h.servers[l].id :: k == l
  }

  function Refreshed(rd: GameServer, gs: GameServer, now: int): GameServer
  {
    rd.(lastLive := now, note := gs.note, online := gs.online)
  }

  /** Registering a server under the key k. */
  function FiledUnder(h: Registry, k: string, gs: GameServer, now: int): (r: Registry)
    ensures k in r.servers
  {
    if k in h.servers then h.(servers := h.servers[k := Refreshed(h.servers[k], gs, now)])
    else Registry(h.servers[k := gs.(id := h.seed + 1, lastLive := now)], h.seed + 1)
  }

  function Registered(h: Registry, gs: GameServer, now: int): Registry
  {
    FiledUnder(h, Key(gs.address, gs.port), gs, now)
  }

  function Removed(h: Registry, id: int): Registry
  {
    h.(servers := map k | k in h.servers && h.servers[k].id != id :: h.servers[k])
  }

  function Swept(h: Registry, now: int): Registry
  {
    h.(servers := map k | k in h.servers && now - h.servers[k].lastLive <= OFFLINE_SECONDS :: h.servers[k])
  }

  /** What the list shows of a server: a password is only hinted at, and hides the port. */
  function Masked(gs: GameServer): GameServer
  {
    if gs.password != "" then gs.(password := "1", port := 0) else gs
  }

  /** keys lists the keys of servers once each: one order in which a range loop may visit them. */
  ghost predicate IsOrder(keys: seq<string>, servers: map<string, GameServer>)
  {
    && (forall k :: k in keys <==> k in servers)
    && forall i, j | 0 <= i < j < |keys| :: keys[i] != keys[j]
  }

  /** list shows the servers, one entry each, in the order keys. */
  ghost predicate ListsInOrder(list: seq<GameServer>, keys: seq<string>, servers: map<string, GameServer>)
  {
    IsOrder(keys, servers) && Shows(list, keys, servers)
  }

  ghost predicate Shows(list: seq<GameServer>, keys: seq<string>, servers: map<string, GameServer>)
  {
    && |list| == |keys|
    && forall i | 0 <= i < |keys| :: keys[i] in servers && list[i] == Masked(servers[keys[i]])
  }

  lemma DropNumbered(h: Registry, h': Registry)
    requires Numbered(h) && h'.seed == h.seed
    requires forall k | k in h'.servers :: k in h.servers && h'.servers[k] == h.servers[k]
    ensures Numbered(h')
  {
  }

  /** Deleting the one server with an id is deleting every server with that id. */
  lemma OneHasId(h: Registry, k: string)
    requires Numbered(h) && k in h.servers
    ensures Removed(h, h.servers[k].id).servers == h.servers - {k}
  {
  }

  lemma NoneHasId(h: Registry, order: seq<string>, id: int)
    requires IsOrder(order, h.servers) && forall j | 0 <= j < |order| :: h.servers[order[j]].id != id
    ensures Removed(h, id) == h
  {
    forall k | k in h.servers ensures h.servers[k].id != id {
      assert k in order;
    }
    assert Removed(h, id).servers == h.servers;
  }

  /** What a sweep has left once it has visited the keys seen. */
  function SweptTo(servers: map<string, GameServer>, seen: seq<string>, now: int): map<string, GameServer>
  {
    map k | k in servers && (k in seen ==> now - servers[k].lastLive <= OFFLINE_SECONDS) :: servers[k]
  }

  lemma SweepNext(servers: map<string, GameServer>, order: seq<string>, i: nat, now: int)
    requires IsOrder(order, servers) && i < |order|
    ensures order[i] in SweptTo(servers, order[..i], now)
    ensures SweptTo(servers, order[..i] + [order[i]], now) ==
            if now - servers[order[i]].lastLive > OFFLINE_SECONDS then SweptTo(servers, order[..i], now) - {order[i]}
            else SweptTo(servers, order[..i], now)
  {
  }

  lemma SweptAll(h: Registry, order: seq<string>, now: int)
    requires IsOrder(order, h.servers)
    ensures SweptTo(h.servers, order, now) == Swept(h, now).servers
  {
  }

  /** A visit of a map is as long as the map. */
  lemma {:induction false} OrderCounts(order: seq<string>, servers: map<string, GameServer>)
    requires IsOrder(order, servers)
    ensures |order| == |servers.Keys|
    decreases |order|
  {
    if order == [] {
      assert servers.Keys == {};
    } else {
      var n := |order| - 1;
      var rest := servers - {order[n]};
      assert IsOrder(order[..n], rest) by {
        assert order == order[..n] + [order[n]];
      }
      OrderCounts(order[..n], rest);
      assert servers.Keys == rest.Keys + {order[n]};
    }
  }

  /** Registering keeps every other server; a new one keeps all it stated but gets the next number and
      this time; a known one keeps number, address, port, password and version, and takes note, online
      count and time from the request. */
  lemma {:induction false} RegisteredExactly(h: Registry, gs: GameServer, now: int)
    ensures var k, r := Key(gs.address, gs.port), Registered(h, gs, now);
            && k in r.servers
            && (forall l | l != k :: l in r.servers <==> l in h.servers)
            && (forall l | l != k && l in h.servers :: r.servers[l] == h.servers[l])
            && r.seed == (if k in h.servers then h.seed else h.seed + 1)
            && r.servers[k] ==
               if k in h.servers then
                 var known := h.servers[k];
                 GameServer(known.id, known.address, known.port, gs.note, gs.online, known.password, known.version, now)
               else GameServer(h.seed + 1, gs.address, gs.port, gs.note, gs.online, gs.password, gs.version, now)
  {
  }

  lemma RegisteredNumbered(h: Registry, gs: GameServer, now: int)
    requires Numbered(h)
    ensures Numbered(Registered(h, gs, now))
  {
  }

  // The registry as the program keeps it: a map to records that are updated in place.

  class UserGameServer {
    var id: int
    var address: string
    var port: int
    var note: string
    var online: int
    var password: string
    var version: string
    var lastLiveTime: int

    ghost function Value(): GameServer
      reads this
    {
      GameServer(id, address, port, note, online, password, version, lastLiveTime)
    }

    constructor Copy(gs: GameServer)
      ensures Value() == gs
    {
      id, address, port, note := gs.id, gs.address, gs.port, gs.note;
      online, password, version, lastLiveTime := gs.online, gs.password, gs.version, gs.lastLive;
    }

    method Refresh(gs: GameServer, now: int)
      modifies this
      ensures Value() == Refreshed(old(Value()), gs, now)
    {
      lastLiveTime := now;
      note := gs.note;
      online := gs.online;
    }

    method Read() returns (gs: GameServer)
      ensures gs == Value()
    {
      gs := GameServer(id, address, port, note, online, password, version, lastLiveTime);
    }
  }

  class HallServers {
    var servers: map<string, UserGameServer>
    var seed: int
    /** What the records say. */
    ghost var contents: map<string, GameServer>

    ghost function Contents(): Registry
      reads `contents, `seed
    {
      Registry(contents, seed)
    }

    ghost predicate Valid()
      reads this, servers.Values
    {
      Numbered(Contents()) && Linked()
    }

    /** Every key has a record of its own, which holds its contents. */
    ghost predicate Linked()
      reads `servers, `contents, servers.Values
    {
      && contents.Keys == servers.Keys
      && (forall k | k in servers :: servers[k].Value() == contents[k])
      && forall k, l | k in servers && l in servers && servers[k] == servers[l] :: k == l
    }

    constructor ()
      ensures Valid() && Contents() == Registry(map[], 0)
    {
      servers, seed, contents := map[], 0, map[];
    }

    method AddUserGameServer(gs: GameServer, now: int) returns (id: int)
      requires Valid()
      modifies this, servers.Values
      ensures Valid()
      ensures Contents() == Registered(old(Contents()), gs, now)
      ensures id == Registered(old(Contents()), gs, now).servers[Key(gs.address, gs.port)].id
      ensures id == if Key(gs.address, gs.port) in old(contents) then old(contents)[Key(gs.address, gs.port)].id
                    else old(seed) + 1
    {
      RegisteredNumbered(Contents(), gs, now);
      var keyString := Key(gs.address, gs.port);
      if keyString !in servers {
        id := NewRecord(keyString, gs, now);
      } else {
        id := UpdateRecord(keyString, gs, now);
      }
    }

    method NewRecord(keyString: string, gs: GameServer, now: int) returns (id: int)
      requires Linked() && keyString !in servers
      modifies this
      ensures Linked()
      ensures Contents() == FiledUnder(old(Contents()), keyString, gs, now)
      ensures id == FiledUnder(old(Contents()), keyString, gs, now).servers[keyString].id
    {
      var rd := new UserGameServer.Copy(gs);
      rd.lastLiveTime := now;
      servers := servers[keyString := rd];
      seed := seed + 1;
      rd.id := seed;
      id := rd.id;
      contents := contents[keyString := gs.(id := seed, lastLive := now)];
    }

    method UpdateRecord(keyString: string, gs: GameServer, now: int) returns (id: int)
      requires Linked() && keyString in servers
      modifies `contents, servers[keyString]
      ensures Linked()
      ensures Contents() == FiledUnder(old(Contents()), keyString, gs, now)
      ensures id == FiledUnder(old(Contents()), keyString, gs, now).servers[keyString].id
    {
      var rd := servers[keyString];
      rd.Refresh(gs, now);
      id := rd.id;
      contents := contents[keyString := Refreshed(contents[keyString], gs, now)];
    }

    method Delete(k: string)
      requires Linked()
      modifies `servers, `contents
      ensures Linked()
      ensures contents == old(contents) - {k}
    {
      servers := servers - {k};
      contents := contents - {k};
    }

    /** The loop stops at the first server with the id; whichever order it visits them in, there is no other. */
    method RemoveUserGameServer(id: int, order: seq<string>)
      requires Valid() && IsOrder(order, contents)
      modifies `servers, `contents
      ensures Valid()
      ensures Contents() == Removed(old(Contents()), id)
      ensures forall k :: k in contents <==> k in old(contents) && old(contents)[k].id != id
      ensures seed == old(seed) && forall k | k in contents :: contents[k] == old(contents)[k]
    {
      ghost var before := Contents();
      DropNumbered(before, Removed(before, id));
      for i := 0 to |order|
        invariant servers == old(servers) && contents == old(contents)
        invariant forall j | 0 <= j < i :: contents[order[j]].id != id
      {
        var k := order[i];
        if servers[k].id == id {
          OneHasId(before, k);
          Delete(k);
          return;
        }
      }
      NoneHasId(before, order, id);
    }

    method CheckOfflineUserGameServer(now: int, order: seq<string>)
      requires Valid() && IsOrder(order, contents)
      modifies `servers, `contents
      ensures Valid()
      ensures Contents() == Swept(old(Contents()), now)
      ensures forall k :: k in contents <==> k in old(contents) && now - old(contents)[k].lastLive <= 90
      ensures seed == old(seed) && forall k | k in contents :: contents[k] == old(contents)[k]
    {
      ghost var before := Contents();
      DropNumbered(before, Swept(before, now));
      for i := 0 to |order|
        invariant Linked() && contents == SweptTo(before.servers, order[..i], now)
      {
        var k := order[i];
        assert order[..i + 1] == order[..i] + [k];
        SweepNext(before.servers, order, i, now);
        if now - servers[k].lastLiveTime > OFFLINE_SECONDS {
          Delete(k);
        }
      }
      assert order[..|order|] == order;
      SweptAll(before, order, now);
    }

    /** The list is made at its full length and filled by index, in whatever order the loop visits the map. */
    method GetGsList(order: seq<string>) returns (gsList: seq<GameServer>)
      requires Valid() && IsOrder(order, contents)
      ensures ListsInOrder(gsList, order, contents)
      ensures |gsList| == |contents.Keys| == |order|
      ensures forall i | 0 <= i < |gsList| :: var gs := contents[order[i]];
                gsList[i] == if gs.password == "" then gs else gs.(password := "1", port := 0)
    {
      OrderCounts(order, contents);
      assert |servers.Keys| == |contents.Keys|;
      gsList := seq(|servers|, i => NO_SERVER);
      var index := 0;
      for i := 0 to |order|
        invariant index == i && |gsList| == |order|
        invariant forall j | 0 <= j < i :: gsList[j] == Masked(contents[order[j]])
      {
        var ug := servers[order[i]].Read();
        if ug.password != "" {
          ug := ug.(password := "1", port := 0);
        }
        gsList := gsList[index := ug];
        index := index + 1;
      }
    }

    /** The address of the one server with the id, if it admits the password. */
    method GetGsAddr(id: int, password: string, order: seq<string>) returns (ok: bool, port: int, address: string)
      requires Valid() && IsOrder(order, contents)
      ensures ok <==> exists k | k in contents ::
                        contents[k].id == id && (contents[k].password == "" || contents[k].password == password)
      ensures !ok ==> port == 0 && address == ""
      ensures ok ==> forall k | k in contents && contents[k].id == id ::
                       contents[k].port == port && contents[k].address == address
    {
      ok, port, address := false, 0, "";
      for i := 0 to |order|
        invariant !ok && forall j | 0 <= j < i :: contents[order[j]].id != id
      {
        var ug := servers[order[i]];
        if ug.id == id {
          assert contents[order[i]].id == id;
          if ug.password == "" || (ug.password != "" && ug.password == password) {
            ok, port, address := true, ug.port, ug.address;
          }
          return;
        }
      }
    }
  }
}
