/** The inductive invariants of the login protocol, and what each event keeps. */
module LoginInvariants {
  import opened GoInts
  import opened Tables
  import opened Accounts
  import opened LoginProtocol

  /** Every entry of the node map leads to a live client that carries the entry's LID. */
  ghost predicate NodesPoint(s: State)
  {
    forall l | l in s.nodes :: s.nodes[l] in s.clients && s.clients[s.nodes[l]].lid == l
  }

  /** The registry holds precisely the live connections that registered, each under its own id. */
  ghost predicate RegistryExact(s: State)
  {
    && (forall k | k in s.registry :: k != 0 && s.registry[k] in s.servers && s.servers[s.registry[k]].id == k)
    && (forall g | g in s.servers && s.servers[g].id != 0 ::
          s.servers[g].id in s.registry && s.registry[s.servers[g].id] == g)
  }

  ghost predicate Once<T>(xs: seq<T>)
  {
    forall i, j | 0 <= i < j < |xs| :: xs[i] != xs[j]
  }

  /** The lists by uid hold each live verified client exactly once, under its uid, and nothing else. */
  ghost predicate UsersExact(s: State)
  {
    && (forall u | u in s.users :: u != 0 && Once(s.users[u]))
    && (forall u, c | u in s.users && c in s.users[u] :: c in s.clients && s.clients[c].uid == u)
    && (forall c | c in s.clients && s.clients[c].uid != 0 ::
          s.clients[c].uid in s.users && c in s.users[s.clients[c].uid])
  }

  /** Only verified clients are bound to a game server. */
  ghost predicate BoundAfterVerify(s: State)
  {
    forall c | c in s.clients && s.clients[c].gs != 0 :: s.clients[c].uid != 0
  }

  /** All presence rows of one uid carry the same server id, which is not 0. */
  ghost predicate SingleServer(s: State)
  {
    && (forall r | r in s.online :: r.sid != 0 && r.uid != 0)
    && (forall r, q | r in s.online && q in s.online && r.uid == q.uid :: r.sid == q.sid)
  }

  /** What holds whatever writes fail and however many clients connect. */
  ghost predicate Inv(s: State)
  {
    && NodesPoint(s) && RegistryExact(s) && UsersExact(s) && BoundAfterVerify(s) && SingleServer(s)
    && AccountKeys(s.accounts) && s.seed >= 1
  }

  /** Every presence row belongs to a server that is registered now. */
  ghost predicate PresenceBacked(s: State)
  {
    forall r | r in s.online :: r.sid in s.registry
  }

  /** The ordinal from 1 to 2^32 of a LID within one turn of the 32-bit counter. */
  function Ordinal(lid: int): (n: nat)
    ensures 1 <= n <= TWO_32
  {
    (lid - 1) % TWO_32 + 1
  }

  /** The counter has not gone round: at most 2^32 clients have connected. */
  predicate FirstTurn(s: State)
  {
    s.seed <= TWO_32 + 1
  }

  /** Within the first turn: a LID identifies a live client, and presence rows with the LID carry
      the identity of that client, or of the one client that ever had it. */
  ghost predicate LidsIdentify(s: State)
  {
    && (forall c | c in s.clients :: Ordinal(s.clients[c].lid) < s.seed)
    && (forall r | r in s.online :: Ordinal(r.lid) < s.seed)
    && (forall c | c in s.clients :: s.clients[c].lid in s.nodes && s.nodes[s.clients[c].lid] == c)
    && (forall c, r | c in s.clients && r in s.online && s.clients[c].lid == r.lid ::
          s.clients[c].uid == r.uid && s.clients[c].gs == r.sid)
    && (forall r, q | r in s.online && q in s.online && r.lid == q.lid :: r.uid == q.uid && r.sid == q.sid)
  }

  lemma InitInv()
    ensures Inv(Init()) && PresenceBacked(Init()) && LidsIdentify(Init())
  {
  }

  // List facts.

  lemma {:induction false} RemoveFirstOnce<T>(xs: seq<T>, x: T)
    requires Once(xs)
    ensures Once(RemoveFirst(xs, x))
    ensures forall y | y in RemoveFirst(xs, x) :: y in xs && y != x
    ensures forall y | y in xs && y != x :: y in RemoveFirst(xs, x)
  {
    if xs != [] && xs[0] != x {
      var rest := xs[1..];
      assert Once(rest) by {
        forall i, j | 0 <= i < j < |rest| ensures rest[i] != rest[j] {
          assert xs[i + 1] != xs[j + 1];
        }
      }
      RemoveFirstOnce(rest, x);
      var r := RemoveFirst(rest, x);
      forall j | 0 < j < |r| + 1 ensures ([xs[0]] + r)[j] != xs[0] {
        assert r[j - 1] in rest;
        var k :| 0 <= k < |rest| && rest[k] == r[j - 1];
        assert xs[0] != xs[k + 1];
      }
      forall i, j | 0 <= i < j < |r| + 1 ensures ([xs[0]] + r)[i] != ([xs[0]] + r)[j] {
        if i > 0 { assert r[i - 1] != r[j - 1]; }
      }
    } else if xs != [] {
      assert forall i | 0 < i < |xs| :: xs[0] != xs[i];
    }
  }

  // One lemma per event that touches the structure concerned.

  lemma AddUserExact(s: State, c: Sock, uid: nat)
    requires UsersExact(s) && c in s.clients && s.clients[c].uid == 0 && uid != 0
    ensures UsersExact(s.(clients := s.clients[c := s.clients[c].(uid := uid)], users := AddUser(s.users, uid, c)))
  {
    var t := s.(clients := s.clients[c := s.clients[c].(uid := uid)], users := AddUser(s.users, uid, c));
    assert forall u | u in s.users :: c !in s.users[u];
    forall u | u in t.users ensures u != 0 && Once(t.users[u]) {
      if u in s.users { assert Once(s.users[u]); }
    }
  }

  lemma DropUserExact(s: State, c: Sock)
    requires UsersExact(s) && c in s.clients
    ensures UsersExact(s.(clients := s.clients - {c}, users := DropUser(s.users, s.clients[c].uid, c)))
  {
    var uid := s.clients[c].uid;
    if uid in s.users {
      RemoveFirstOnce(s.users[uid], c);
    }
  }

  lemma {:induction false} VerifiedUid(accounts: seq<AccountRow>, account: string, password: string)
    requires AccountKeys(accounts)
    ensures var (ret, row) := VerifyCode(accounts, account, password);
            && (ret == 0 <==> row.Some?)
            && (ret == 0 <==> |account| <= 20 && exists r :: r in accounts && r.account == account && r.password == password)
            && (row.Some? ==> row.value in accounts && row.value.uid != 0
                              && row.value.account == account && row.value.password == password)
  {
    var (ret, row) := VerifyCode(accounts, account, password);
    if |account| <= 20 {
      if r :| r in accounts && r.account == account && r.password == password {
        assert HasAccount(account)(r);
        var found := AccountByName(accounts, account);
        assert found.Some? && HasAccount(account)(found.value);
        var i :| 0 <= i < |accounts| && accounts[i] == r;
        var j :| 0 <= j < |accounts| && accounts[j] == found.value;
        assert AccountOf()(accounts[i]) == AccountOf()(accounts[j]);
      }
    }
  }

  lemma ConnectKeepsInv(s: State, c: Sock, token: string)
    requires Inv(s) && c !in s.clients
    ensures Inv(OnClientConnected(s, c, token))
  {
    assert forall u | u in s.users :: c !in s.users[u];
  }

  lemma DisconnectKeepsInv(s: State, c: Sock)
    requires Inv(s)
    ensures Inv(OnClientDisconnected(s, c))
  {
    if c in s.clients {
      DropUserExact(s, c);
      var t := OnClientDisconnected(s, c);
      assert UsersExact(t) by {
        var u := s.(clients := s.clients - {c}, users := DropUser(s.users, s.clients[c].uid, c));
        assert UsersExact(u) && t.users == u.users && t.clients == u.clients;
      }
    }
  }

  lemma VerifyKeepsInv(s: State, c: Sock, account: string, password: string)
    requires Inv(s)
    ensures Inv(OnVerifyAccount(s, c, account, password))
  {
    if c in s.clients && s.clients[c].uid == 0 {
      var (ret, row) := VerifyCode(s.accounts, account, password);
      if row.Some? {
        VerifiedUid(s.accounts, account, password);
        AddUserExact(s, c, row.value.uid);
      }
    }
  }

  lemma BindKeepsInv(s: State, g: Sock, lid: int, token: string, gid: int, code: int)
    requires Inv(s)
    ensures Inv(OnUserVerify(s, g, lid, token, gid, code))
  {
    if Binds(s, g, lid, token) {
      var t := OnUserVerify(s, g, lid, token, gid, code);
      assert forall c | c in s.clients :: c in t.clients && t.clients[c].uid == s.clients[c].uid
                                          && t.clients[c].lid == s.clients[c].lid;
    }
  }

  lemma ServersKeepInv(s: State, e: Event)
    requires Inv(s) && Enabled(s, e)
    requires e.ServerConnected? || e.ServerDisconnected? || e.RegisterServer? || e.PlayerDisconnected?
    ensures Inv(Step(s, e))
  {
    var t := Step(s, e);
    assert t.clients == s.clients && t.nodes == s.nodes && t.users == s.users;
    assert RegistryExact(t) by { RegistryStep(s, e); }
    assert SingleServer(t);
  }

  lemma RegistryStep(s: State, e: Event)
    requires RegistryExact(s) && Enabled(s, e)
    requires e.ServerConnected? || e.ServerDisconnected? || e.RegisterServer? || e.PlayerDisconnected?
    ensures RegistryExact(Step(s, e))
  {
  }

  function OnServer(sid: int): OnlineRow -> bool { (r: OnlineRow) => r.sid == sid }

  /** Whatever another game-server connection does or suffers, be it lost, registered, refused or not
      registered at all, a registered server, its registry entry and all its rows stay as they were. */
  lemma OthersKeepHolder(s: State, e: Event, h: Sock)
    requires RegistryExact(s) && Enabled(s, e) && h in s.servers && s.servers[h].id != 0
    requires e.ServerConnected? || e.ServerDisconnected? || e.RegisterServer? || e.UserVerify? || e.PlayerDisconnected?
    requires e.g != h
    ensures var t, id := Step(s, e), s.servers[h].id;
            && h in t.servers && t.servers[h] == s.servers[h]
            && id in t.registry && t.registry[id] == h
            && Where(t.online, OnServer(id)) == Where(s.online, OnServer(id))
  {
    match e
    case ServerDisconnected(g, deleted) =>
      if g in s.servers && s.servers[g].id != 0 && deleted {
        WhereWithin(s.online, NotOnServer(s.servers[g].id), OnServer(s.servers[h].id));
      }
    case PlayerDisconnected(g, player, lid, deleted) =>
      if g in s.servers && s.servers[g].id != 0 && deleted {
        WhereWithin(s.online, NotSession(UInt32(player), s.servers[g].id, lid), OnServer(s.servers[h].id));
      }
    case _ =>
  }

  /** Every event keeps the invariant, whichever of its writes fail. */
  lemma {:induction false} StepKeepsInv(s: State, e: Event)
    requires Inv(s) && Enabled(s, e)
    ensures Inv(Step(s, e))
  {
    match e
    case ClientConnected(c, token) => ConnectKeepsInv(s, c, token);
    case ClientDisconnected(c) => DisconnectKeepsInv(s, c);
    case VerifyAccount(c, account, password) => VerifyKeepsInv(s, c, account, password);
    case LoginGame(c, prev, save, written) =>
      if c in s.clients { LoginKeepsSingleServer(s, c, prev, save, written); }
    case UserVerify(g, lid, token, gid, code) => BindKeepsInv(s, g, lid, token, gid, code);
    case AccountsChanged(table) =>
    case _ => ServersKeepInv(s, e);
  }

  /** The admission check on one arbitrary row is enough to keep all rows of a uid on one server. */
  lemma {:induction false} LoginKeepsSingleServer(s: State, c: Sock, prev: Option<OnlineRow>, save: SaveOutcome, written: bool)
    requires SingleServer(s) && c in s.clients && Selects(s.online, OfUid(s.clients[c].uid), prev)
    ensures SingleServer(OnLoginGame(s, c, prev, save, written))
  {
    if ReplyToLogin(s, c, prev, save).Admitted? && written {
      var cl := s.clients[c];
      forall r | r in s.online && r.uid == cl.uid ensures r.sid == cl.gs {
        assert OfUid(cl.uid)(r);
      }
    }
  }

  /** A connect keeps LIDs telling clients apart exactly when no live client holds the LID that
      is issued, so the guarantee ends when the 32-bit counter meets a LID still in use. */
  lemma ConnectKeepsNodes(s: State, c: Sock, token: string)
    requires NodesPoint(s) && c !in s.clients
    requires forall d | d in s.clients :: s.clients[d].lid in s.nodes && s.nodes[s.clients[d].lid] == d
    ensures var t := OnClientConnected(s, c, token);
            (forall d | d in t.clients :: t.clients[d].lid in t.nodes && t.nodes[t.clients[d].lid] == d)
            <==> forall d | d in s.clients :: s.clients[d].lid != Int32(s.seed)
  {
    var t := OnClientConnected(s, c, token);
    if d :| d in s.clients && s.clients[d].lid == Int32(s.seed) {
      assert d in t.clients && t.nodes[t.clients[d].lid] == c;
    }
  }

  lemma {:induction false} ConnectKeepsLids(s: State, c: Sock, token: string)
    requires Inv(s) && LidsIdentify(s) && c !in s.clients && s.seed <= TWO_32
    ensures LidsIdentify(OnClientConnected(s, c, token))
  {
    assert Ordinal(Int32(s.seed)) == s.seed;
  }

  lemma LoginKeepsLids(s: State, c: Sock, prev: Option<OnlineRow>, save: SaveOutcome, written: bool)
    requires Inv(s) && LidsIdentify(s)
    ensures LidsIdentify(OnLoginGame(s, c, prev, save, written))
  {
    if ReplyToLogin(s, c, prev, save).Admitted? && written {
      var row := OnlineRow(s.clients[c].uid, s.clients[c].gs, s.clients[c].lid);
      forall d | d in s.clients && s.clients[d].lid == row.lid ensures d == c {
        assert s.nodes[row.lid] == d;
      }
      var t := OnLoginGame(s, c, prev, save, written);
      assert t.online == s.online + [row];
    }
  }

  lemma BindKeepsLids(s: State, g: Sock, lid: int, token: string, gid: int, code: int)
    requires Inv(s) && LidsIdentify(s)
    ensures LidsIdentify(OnUserVerify(s, g, lid, token, gid, code))
  {
    if Binds(s, g, lid, token) {
      assert forall r | r in s.online :: r.lid != lid;
    }
  }

  /** Within the first turn of the counter every event keeps LIDs telling clients apart. */
  lemma {:induction false} StepKeepsLids(s: State, e: Event)
    requires Inv(s) && LidsIdentify(s) && Enabled(s, e) && FirstTurn(Step(s, e))
    ensures LidsIdentify(Step(s, e))
  {
    match e
    case ClientConnected(c, token) => ConnectKeepsLids(s, c, token);
    case VerifyAccount(c, account, password) => VerifyKeepsLids(s, c, account, password);
    case LoginGame(c, prev, save, written) => LoginKeepsLids(s, c, prev, save, written);
    case UserVerify(g, lid, token, gid, code) => BindKeepsLids(s, g, lid, token, gid, code);
    case _ =>
  }

  lemma VerifyKeepsLids(s: State, c: Sock, account: string, password: string)
    requires Inv(s) && LidsIdentify(s)
    ensures LidsIdentify(OnVerifyAccount(s, c, account, password))
  {
    assert forall r | r in s.online :: r.uid != 0;
  }

  /** Presence stays backed by the registry exactly as long as no server disconnect fails to
      delete rows the server still has. */
  lemma {:induction false} StepKeepsPresence(s: State, e: Event)
    requires Inv(s) && PresenceBacked(s) && Enabled(s, e)
    ensures PresenceBacked(Step(s, e)) <==>
            !(e.ServerDisconnected? && !e.deleted && e.g in s.servers && s.servers[e.g].id != 0
              && exists r :: r in s.online && r.sid == s.servers[e.g].id)
  {
    match e
    case ServerDisconnected(g, deleted) =>
      if g in s.servers {
        var id := s.servers[g].id;
        var t := Step(s, e);
        if id != 0 && deleted {
          forall r | r in t.online ensures r.sid in t.registry {
            assert NotOnServer(id)(r);
          }
        } else if id != 0 {
          assert id !in t.registry && t.online == s.online;
        } else {
          assert 0 !in s.registry;
          assert t.registry == s.registry;
        }
      }
    case LoginGame(c, prev, save, written) =>
    case _ =>
  }
}
