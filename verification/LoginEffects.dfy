/** What each event does to clients, servers and rows, field by field, and what that comes to over
    runs: who is connected, verified, bound, registered and shown online, and what a login is answered. */
module LoginEffects {
  import opened GoInts
  import opened Tables
  import opened Accounts
  import AccountLaws
  import opened LoginProtocol
  import opened LoginInvariants
  import opened LoginHistory

  // Verification.

  /** The verdict on a verification: 0 for the password of an account, 1 for an unknown or over-long
      account, 2 for any other password. */
  lemma {:induction false} VerdictExactly(accounts: seq<AccountRow>, account: string, password: string)
    requires AccountKeys(accounts)
    ensures var ret := VerifyCode(accounts, account, password).0;
            var known := |account| <= 20 && exists r :: r in accounts && r.account == account;
            var right := exists r :: r in accounts && r.account == account && r.password == password;
            && (ret == 0 <==> known && right)
            && (ret == 1 <==> !known)
            && (ret == 2 <==> known && !right)
  {
    VerifiedUid(accounts, account, password);
    if r :| r in accounts && r.account == account {
      assert HasAccount(account)(r);
    }
    var found := AccountByName(accounts, account);
    assert found.Some? ==> found.value in accounts && HasAccount(account)(found.value);
  }

  lemma {:induction false} VerdictUid(accounts: seq<AccountRow>, r: AccountRow)
    requires AccountKeys(accounts) && r in accounts && |r.account| <= 20
    ensures VerifyCode(accounts, r.account, r.password) == (0, Some(r))
  {
    VerifiedUid(accounts, r.account, r.password);
    AccountLaws.OneRow(accounts, HasAccount(r.account), r);
    var found := VerifyCode(accounts, r.account, r.password).1.value;
    assert HasAccount(r.account)(found);
  }

  /** A verification with an account's password gives an unverified client the account's uid and lists
      it there; any other leaves everything as it was. */
  lemma {:induction false} VerifyEffect(s: State, c: Sock, account: string, password: string, r: AccountRow)
    requires AccountKeys(s.accounts) && r in s.accounts && r.account == account
    ensures var t := Step(s, VerifyAccount(c, account, password));
            if c in s.clients && s.clients[c].uid == 0 && |account| <= 20 && r.password == password then
              t == s.(clients := s.clients[c := s.clients[c].(uid := r.uid)],
                      users := s.users[r.uid := (if r.uid in s.users then s.users[r.uid] else []) + [c]])
            else t == s
  {
    if |account| <= 20 && r.password == password {
      VerdictUid(s.accounts, r);
    } else {
      VerdictExactly(s.accounts, account, password);
      VerifiedUid(s.accounts, account, password);
      AccountLaws.OneRow(s.accounts, HasAccount(account), r);
      assert forall q | q in s.accounts && q.account == account :: HasAccount(account)(q);
    }
  }

  lemma {:induction false} VerifyUnknown(s: State, c: Sock, account: string, password: string)
    requires AccountKeys(s.accounts) && forall r | r in s.accounts :: r.account != account
    ensures Step(s, VerifyAccount(c, account, password)) == s
  {
    VerifiedUid(s.accounts, account, password);
  }

  /** In a run, a client that is verified with an account's password while it has no uid has that
      account's uid from then on, as long as it stays connected. */
  lemma {:induction false} VerifiedFromThen(es: seq<Event>, ss: seq<State>, k: nat, n: nat, c: Sock, r: AccountRow)
    requires IsRun(es, ss) && k < n < |ss| && es[k] == VerifyAccount(c, r.account, r.password)
    requires r in ss[k].accounts && |r.account| <= 20 && c in ss[k].clients && ss[k].clients[c].uid == 0
    requires forall t | k < t <= n :: c in ss[t].clients
    ensures ss[n].clients[c].uid == r.uid
  {
    RunInv(es, ss, k);
    assert StepAt(es, ss, k);
    VerifyEffect(ss[k], c, r.account, r.password, r);
    IdentityIsWriteOnce(es, ss, k + 1, n, c);
    RunInv(es, ss, k + 1);
  }

  // Binding.

  /** A registered server that presents the LID and the token of a verified, unbound client gets the
      client, with the player index and code it gave; any other request leaves everything as it was. */
  lemma {:induction false} BindEffect(s: State, g: Sock, lid: int, token: string, gid: int, code: int)
    ensures var t := Step(s, UserVerify(g, lid, token, gid, code));
            if g in s.servers && s.servers[g].id != 0 && lid in s.nodes && s.nodes[lid] in s.clients
               && s.clients[s.nodes[lid]].uid != 0 && s.clients[s.nodes[lid]].token == token
               && s.clients[s.nodes[lid]].gs == 0
            then
              var c, cl := s.nodes[lid], s.clients[s.nodes[lid]];
              t == s.(clients := s.clients[c := Client(cl.lid, token, cl.uid, s.servers[g].id, gid, code)])
            else t == s
  {
  }

  /** In a run, a verified, unbound client whose LID and token a registered server presents while the
      node map leads to it is bound to that server from then on, as long as it stays connected. */
  lemma {:induction false} BoundFromThen(es: seq<Event>, ss: seq<State>, k: nat, n: nat, c: Sock)
    requires IsRun(es, ss) && k < n < |ss| && c in ss[k].clients && es[k].UserVerify?
    requires var s, e, cl := ss[k], es[k], ss[k].clients[c];
             && e.g in s.servers && s.servers[e.g].id != 0
             && e.lid == cl.lid && e.token == cl.token && cl.uid != 0 && cl.gs == 0
             && cl.lid in s.nodes && s.nodes[cl.lid] == c
    requires forall t | k < t <= n :: c in ss[t].clients
    ensures var cl := ss[n].clients[c];
            cl.gs == ss[k].servers[es[k].g].id && cl.gid == es[k].gid && cl.code == es[k].code
  {
    assert StepAt(es, ss, k);
    BindEffect(ss[k], es[k].g, es[k].lid, es[k].token, es[k].gid, es[k].code);
    IdentityIsWriteOnce(es, ss, k + 1, n, c);
  }

  // Who is connected.

  /** After an event exactly those are clients who were and have not just disconnected, and the one
      who has just connected. */
  lemma {:induction false} ClientsAfter(s: State, e: Event, d: Sock)
    requires Enabled(s, e)
    ensures d in Step(s, e).clients <==> (d in s.clients && e != ClientDisconnected(d)) || (e.ClientConnected? && e.c == d)
  {
  }

  /** A client is left as it is by every event but its own verification and its own binding. */
  lemma {:induction false} ClientUntouched(s: State, e: Event, d: Sock)
    requires NodesPoint(s) && Enabled(s, e) && d in s.clients && e != ClientDisconnected(d)
    requires e.VerifyAccount? ==> e.c != d
    requires e.UserVerify? ==> e.lid != s.clients[d].lid
    ensures d in Step(s, e).clients && Step(s, e).clients[d] == s.clients[d]
  {
  }

  /** A disconnect takes out that client, its entry in the node map and its place in its uid's list, and
      leaves everybody and everything else. */
  lemma {:induction false} DisconnectEffect(s: State, c: Sock)
    requires Inv(s) && c in s.clients
    ensures var t, cl := Step(s, ClientDisconnected(c)), s.clients[c];
            && (forall d :: d in t.clients <==> d in s.clients && d != c)
            && (forall d | d in t.clients :: t.clients[d] == s.clients[d])
            && (forall l :: l in t.nodes <==> l in s.nodes && l != cl.lid)
            && (forall l | l in t.nodes :: t.nodes[l] == s.nodes[l])
            && t.users.Keys == s.users.Keys
            && (forall u | u in t.users :: multiset(t.users[u]) == multiset(s.users[u]) - multiset{c})
            && t == s.(clients := t.clients, nodes := t.nodes, users := t.users)
  {
    var cl, t := s.clients[c], Step(s, ClientDisconnected(c));
    forall u | u in t.users ensures multiset(t.users[u]) == multiset(s.users[u]) - multiset{c} {
      if u == cl.uid {
        RemoveFirstCounts(s.users[u], c);
      } else {
        assert c !in s.users[u];
      }
    }
  }

  lemma {:induction false} RemoveFirstCounts(xs: seq<Sock>, x: Sock)
    ensures multiset(RemoveFirst(xs, x)) == multiset(xs) - multiset{x}
  {
    if xs != [] {
      assert xs == [xs[0]] + xs[1..];
      if xs[0] != x {
        RemoveFirstCounts(xs[1..], x);
      }
    }
  }

  /** What no event touches: clients' events leave the servers alone and servers' events the node map
      and the lists, rows change at logins, losses and notices only, and accounts by their own code only. */
  lemma {:induction false} Frames(s: State, e: Event)
    requires Enabled(s, e)
    ensures var t := Step(s, e);
            && (!e.ServerConnected? && !e.ServerDisconnected? && !e.RegisterServer? ==>
                  t.servers == s.servers && t.registry == s.registry && t.serverSeed == s.serverSeed)
            && (!e.ClientConnected? && !e.ClientDisconnected? && !e.VerifyAccount? ==>
                  t.nodes == s.nodes && t.users == s.users && t.seed == s.seed && (!e.UserVerify? ==> t.clients == s.clients))
            && (!e.LoginGame? && !e.ServerDisconnected? && !e.PlayerDisconnected? ==> t.online == s.online)
            && t.accounts == (if e.AccountsChanged? then e.table else s.accounts)
  {
  }

  /** How many clients have connected in the first n events. */
  function Connects(es: seq<Event>, n: nat): nat
    requires n <= |es|
  {
    if n == 0 then 0 else Connects(es, n - 1) + if es[n - 1].ClientConnected? then 1 else 0
  }

  /** The counter is one more than the number of connects so far. */
  lemma {:induction false} SeedCounts(es: seq<Event>, ss: seq<State>, n: nat)
    requires IsRun(es, ss) && n < |ss|
    ensures ss[n].seed == 1 + Connects(es, n)
  {
    if n > 0 {
      SeedCounts(es, ss, n - 1);
      assert StepAt(es, ss, n - 1);
    }
  }

  /** A connect makes a client that is neither verified nor bound, under the token it was sent and the
      low 32 bits of its number, and adds it to the node map. */
  lemma {:induction false} ConnectEffect(es: seq<Event>, ss: seq<State>, n: nat)
    requires IsRun(es, ss) && n < |es| && es[n].ClientConnected?
    ensures var c, lid := es[n].c, Int32(1 + Connects(es, n));
            ss[n + 1] == ss[n].(seed := ss[n].seed + 1,
                                clients := ss[n].clients[c := Client(lid, es[n].token, 0, 0, 0, 0)],
                                nodes := ss[n].nodes[lid := c])
  {
    SeedCounts(es, ss, n);
    assert StepAt(es, ss, n);
  }

  /** A connection is a client exactly if it has connected and not disconnected since. */
  lemma {:induction false} ConnectedExactly(es: seq<Event>, ss: seq<State>, n: nat, c: Sock)
    requires IsRun(es, ss) && n < |ss|
    ensures c in ss[n].clients <==>
            exists m :: 0 <= m < n && es[m].ClientConnected? && es[m].c == c
                        && forall t | m < t < n :: es[t] != ClientDisconnected(c)
  {
    if n > 0 {
      ConnectedExactly(es, ss, n - 1, c);
      assert StepAt(es, ss, n - 1);
      ClientsAfter(ss[n - 1], es[n - 1], c);
      if c in ss[n].clients {
        if es[n - 1].ClientConnected? && es[n - 1].c == c {
          var m := n - 1;
          assert 0 <= m < n && es[m].ClientConnected? && es[m].c == c;
        } else {
          var m :| 0 <= m < n - 1 && es[m].ClientConnected? && es[m].c == c
                   && forall t | m < t < n - 1 :: es[t] != ClientDisconnected(c);
          assert forall t | m < t < n :: es[t] != ClientDisconnected(c);
        }
      }
    }
  }

  // Game servers.

  predicate Loses(e: Event, g: Sock)
  {
    e.ServerDisconnected? && e.g == g
  }

  /** A registration is accepted exactly for a live connection without an id and an id that is not 0 and
      not taken; it then holds what the request states, and nothing else changes. */
  lemma {:induction false} RegisterEffect(s: State, g: Sock, id: int, name: string, address: string)
    ensures var t := Step(s, RegisterServer(g, id, name, address));
            if g in s.servers && s.servers[g].id == 0 && id != 0 && id !in s.registry then
              t == s.(servers := s.servers[g := Server(s.servers[g].connId, id, name, address)],
                      registry := s.registry[id := g])
            else t == s
  {
  }

  /** Every event but its own leaves a game-server connection as it is; connecting and disconnecting
      are all that makes and ends one. */
  lemma {:induction false} ServersAfter(s: State, e: Event, g: Sock)
    requires Enabled(s, e)
    ensures g in Step(s, e).servers <==> (g in s.servers && !Loses(e, g)) || (e.ServerConnected? && e.g == g)
    ensures g in s.servers && !Loses(e, g) && !(e.RegisterServer? && e.g == g) ==> Step(s, e).servers[g] == s.servers[g]
    ensures e.ServerConnected? && e.g == g ==> Step(s, e).servers[g] == Server(s.serverSeed, 0, "", "")
    ensures Step(s, e).serverSeed == s.serverSeed + if e.ServerConnected? then 1 else 0
  {
  }

  /** Event m registers g as id, with that name and address. */
  ghost predicate Registers(es: seq<Event>, ss: seq<State>, m: nat, g: Sock, v: Server)
  {
    && m < |es| && m < |ss| && es[m] == RegisterServer(g, v.id, v.name, v.address) && v.id != 0
    && g in ss[m].servers && ss[m].servers[g] == Server(v.connId, 0, "", "") && v.id !in ss[m].registry
  }

  lemma {:induction false} Unnamed(es: seq<Event>, ss: seq<State>, n: nat, g: Sock)
    requires IsRun(es, ss) && n < |ss| && g in ss[n].servers && ss[n].servers[g].id == 0
    ensures ss[n].servers[g].name == "" && ss[n].servers[g].address == ""
  {
    assert StepAt(es, ss, n - 1);
    ServersAfter(ss[n - 1], es[n - 1], g);
    if !(es[n - 1].ServerConnected? && es[n - 1].g == g) {
      Unnamed(es, ss, n - 1, g);
    }
  }

  /** A connection is registered with an id, name and address exactly if it stated them in a request
      that was accepted, and has not been lost since. */
  lemma {:induction false} RegisteredExactly(es: seq<Event>, ss: seq<State>, n: nat, g: Sock, v: Server)
    requires IsRun(es, ss) && n < |ss| && v.id != 0
    ensures (g in ss[n].servers && ss[n].servers[g] == v) <==>
            exists m: nat :: m < n && Registers(es, ss, m, g, v) && forall t | m < t < n :: !Loses(es[t], g)
  {
    if n > 0 {
      RegisteredExactly(es, ss, n - 1, g, v);
      assert StepAt(es, ss, n - 1);
      var s, e := ss[n - 1], es[n - 1];
      ServersAfter(s, e, g);
      if g in s.servers && s.servers[g].id == 0 {
        Unnamed(es, ss, n - 1, g);
      }
      if g in ss[n].servers && ss[n].servers[g] == v {
        if g in s.servers && s.servers[g] == v && !Loses(e, g) {
          var m: nat :| m < n - 1 && Registers(es, ss, m, g, v) && forall t | m < t < n - 1 :: !Loses(es[t], g);
          assert forall t | m < t < n :: !Loses(es[t], g);
        } else {
          RegisterEffect(s, e.g, e.id, e.name, e.address);
          assert Registers(es, ss, n - 1, g, v);
        }
      }
    }
  }

  // Rows.

  /** How often a row is in the table. */
  function Times(rows: seq<OnlineRow>, row: OnlineRow): nat
  {
    multiset(rows)[row]
  }

  lemma {:induction false} WhereTimes(rows: seq<OnlineRow>, p: OnlineRow -> bool, row: OnlineRow)
    ensures Times(Where(rows, p), row) == if p(row) then Times(rows, row) else 0
  {
    if rows != [] {
      WhereTimes(rows[1..], p, row);
      assert rows == [rows[0]] + rows[1..];
    }
  }

  /** Every row is there as often as before, but that a lost server's rows and a reported session's rows
      are gone, duplicates included, and that an admitted login is there once more. */
  lemma {:induction false} TimesAfter(s: State, e: Event, row: OnlineRow)
    requires Inv(s) && Enabled(s, e)
    ensures Times(Step(s, e).online, row) ==
            if Removes(s, e, row) then 0 else Times(s.online, row) + if Enters(s, e, row) then 1 else 0
  {
    match e
    case ServerDisconnected(g, deleted) =>
      if g in s.servers && s.servers[g].id != 0 && deleted {
        WhereTimes(s.online, NotOnServer(s.servers[g].id), row);
      } else if Removes(s, e, row) {
        assert row !in s.online;
      }
    case PlayerDisconnected(g, player, lid, deleted) =>
      if g in s.servers && s.servers[g].id != 0 && deleted {
        WhereTimes(s.online, NotSession(UInt32(player), s.servers[g].id, lid), row);
      } else if Removes(s, e, row) {
        assert row !in s.online;
      }
    case _ =>
  }

  // What a login is answered.

  /** Some row of the client's player is on another server than the client's. */
  ghost predicate Elsewhere(s: State, cl: Client)
  {
    exists r :: r in s.online && r.uid == cl.uid && r.sid != cl.gs
  }

  /** Every answer has its exact cause: 7 without a server or with one that is not registered, 10 with
      the number of the other server for a player shown there, 2, 5 and 3 for a save that is missing,
      without the role or unreadable; and an admitted player's data goes to the live connection that is
      registered as the client's server. */
  lemma {:induction false} AnswerExactly(s: State, c: Sock, prev: Option<OnlineRow>, save: SaveOutcome)
    requires Inv(s) && c in s.clients && Selects(s.online, OfUid(s.clients[c].uid), prev)
    ensures var cl, reply := s.clients[c], ReplyToLogin(s, c, prev, save);
            var away := Elsewhere(s, cl);
            var served := cl.uid != 0 && cl.gs != 0 && !away && cl.gs in s.registry;
            && (reply == NotVerified <==> cl.uid == 0)
            && (reply == QuickMessage(7, 0) <==> cl.uid != 0 && (cl.gs == 0 || (!away && cl.gs !in s.registry)))
            && (reply.QuickMessage? && reply.id == 10 <==> cl.uid != 0 && cl.gs != 0 && away)
            && (reply.QuickMessage? && reply.id == 10 ==>
                  forall r | r in s.online && r.uid == cl.uid :: reply.param == Int32(r.sid))
            && (reply == QuickMessage(2, 0) <==> served && save.NoFile?)
            && (reply == QuickMessage(5, 0) <==> served && save.NoRole?)
            && (reply == QuickMessage(3, 0) <==> served && save.Unreadable?)
            && (reply.Admitted? <==> served && save.Loaded?)
            && (reply.Admitted? ==> reply.server in s.servers && s.servers[reply.server].id == cl.gs)
  {
    var cl := s.clients[c];
    if r :| r in s.online && r.uid == cl.uid {
      assert OfUid(cl.uid)(r);
    }
  }

  /** So in a run: whoever is admitted is sent to the one connection registered then as the client's
      server, and that stays so until it is lost. */
  lemma {:induction false} AdmittedToServer(es: seq<Event>, ss: seq<State>, n: nat, c: Sock, prev: Option<OnlineRow>,
                                            save: SaveOutcome)
    requires IsRun(es, ss) && n < |ss| && c in ss[n].clients
    requires Selects(ss[n].online, OfUid(ss[n].clients[c].uid), prev)
    requires ReplyToLogin(ss[n], c, prev, save).Admitted?
    ensures var g, gs := ReplyToLogin(ss[n], c, prev, save).server, ss[n].clients[c].gs;
            && gs != 0 && forall h | h in ss[n].servers :: ss[n].servers[h].id == gs <==> h == g
    ensures ReplyToLogin(ss[n], c, prev, save).server in ss[n].servers
  {
    RunInv(es, ss, n);
    AnswerExactly(ss[n], c, prev, save);
  }

  // Registered accounts can log in.

  /** Every user that a batch adds can be verified with the password given, as the uid given. */
  lemma {:induction false} NewUserVerifies(t: seq<AccountRow>, users: seq<NewUser>, uids: seq<nat>, room: nat, i: nat)
    requires AccountKeys(t) && |users| <= |uids| && FreshUids(t, uids) && i < Added(t, users, room)
    ensures var v := Where(users, Insertable(t))[i];
            var (ret, row) := VerifyCode(AfterBatch(t, users, uids, room), v.account, v.password);
            ret == 0 && row.Some? && row.value.uid == uids[i]
  {
    var v := Where(users, Insertable(t))[i];
    var u := AfterBatch(t, users, uids, room);
    AccountLaws.BatchKeepsKeys(t, users, uids, room);
    BatchRow(t, users, uids, room, i);
    InsertableExactly(t, v);
    VerdictUid(u, u[|t| + i]);
  }

  /** A changed password is the one that verifies from then on. */
  lemma {:induction false} NewPasswordVerifies(t: seq<AccountRow>, r: AccountRow, password: string, other: string)
    requires AccountKeys(t) && r in t && |r.account| <= 20
    ensures var u := AccountLaws.Apply(t, AccountLaws.SetPassword(r.account, password, true));
            && VerifyCode(u, r.account, password).0 == 0
            && (other != password ==> VerifyCode(u, r.account, other).0 == 2)
  {
    var u := AccountLaws.Apply(t, AccountLaws.SetPassword(r.account, password, true));
    AccountLaws.UpdateKeepsKeys(t, HasAccount(r.account), AccountLaws.WithPassword(password));
    var i :| 0 <= i < |t| && t[i] == r;
    assert u[i] in u && u[i].account == r.account && u[i].password == password;
    VerdictExactly(u, r.account, password);
    VerdictExactly(u, r.account, other);
    forall q | q in u && q.account == r.account ensures q == u[i] {
      AccountLaws.OneRow(u, HasAccount(r.account), u[i]);
      assert HasAccount(r.account)(q);
    }
  }
}
