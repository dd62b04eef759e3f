/** What whole runs of the login protocol guarantee, for every interleaving of client and
    game-server events and every pattern of failing writes. */
module LoginHistory {
  import opened GoInts
  import opened Tables
  import opened LoginProtocol
  import opened LoginInvariants

  // Safety in every state of a run.

  lemma {:induction false} RunInv(es: seq<Event>, ss: seq<State>, n: nat)
    requires IsRun(es, ss) && n < |ss|
    ensures Inv(ss[n])
  {
    if n == 0 {
      InitInv();
    } else {
      RunInv(es, ss, n - 1);
      assert StepAt(es, ss, n - 1);
      StepKeepsInv(ss[n - 1], es[n - 1]);
    }
  }

  /** A server disconnect that leaves rows of that server behind. */
  ghost predicate LeavesRows(s: State, e: Event)
  {
    && e.ServerDisconnected? && !e.deleted && e.g in s.servers && s.servers[e.g].id != 0
    && exists r :: r in s.online && r.sid == s.servers[e.g].id
  }

  /** As long as every server disconnect deletes that server's rows, each player shown online is
      on a server registered now, also when servers come back under the same id. */
  lemma {:induction false} RunPresenceBacked(es: seq<Event>, ss: seq<State>, n: nat)
    requires IsRun(es, ss) && n < |ss|
    requires forall i | 0 <= i < n :: !LeavesRows(ss[i], es[i])
    ensures PresenceBacked(ss[n])
  {
    if n > 0 {
      RunPresenceBacked(es, ss, n - 1);
      RunInv(es, ss, n - 1);
      assert StepAt(es, ss, n - 1) && !LeavesRows(ss[n - 1], es[n - 1]);
      StepKeepsPresence(ss[n - 1], es[n - 1]);
    }
  }

  /** Presence is backed in all states of a run exactly if no server disconnect of it leaves rows behind. */
  lemma {:induction false} PresenceExactly(es: seq<Event>, ss: seq<State>, n: nat)
    requires IsRun(es, ss) && n < |ss|
    ensures (forall i | 0 <= i <= n :: PresenceBacked(ss[i])) <==> forall i | 0 <= i < n :: !LeavesRows(ss[i], es[i])
  {
    if forall i | 0 <= i < n :: !LeavesRows(ss[i], es[i]) {
      forall i | 0 <= i <= n ensures PresenceBacked(ss[i]) {
        RunPresenceBacked(es, ss, i);
      }
    } else if forall i | 0 <= i <= n :: PresenceBacked(ss[i]) {
      forall i | 0 <= i < n ensures !LeavesRows(ss[i], es[i]) {
        assert PresenceBacked(ss[i]) && PresenceBacked(ss[i + 1]);
        RunInv(es, ss, i);
        assert StepAt(es, ss, i);
        StepKeepsPresence(ss[i], es[i]);
      }
    }
  }

  lemma {:induction false} SeedGrows(es: seq<Event>, ss: seq<State>, i: nat, j: nat)
    requires IsRun(es, ss) && i <= j < |ss|
    ensures ss[i].seed <= ss[j].seed
    decreases j
  {
    if i < j {
      SeedGrows(es, ss, i, j - 1);
      assert StepAt(es, ss, j - 1);
    }
  }

  lemma {:induction false} RunLids(es: seq<Event>, ss: seq<State>, n: nat)
    requires IsRun(es, ss) && n < |ss| && FirstTurn(ss[n])
    ensures LidsIdentify(ss[n])
  {
    if n == 0 {
      InitInv();
    } else {
      SeedGrows(es, ss, n - 1, n);
      RunLids(es, ss, n - 1);
      RunInv(es, ss, n - 1);
      assert StepAt(es, ss, n - 1);
      StepKeepsLids(ss[n - 1], es[n - 1]);
    }
  }

  // Precedence.

  /** From state a to state b the client on socket c stays connected with this LID and token. */
  ghost predicate Holds(ss: seq<State>, a: nat, b: nat, c: Sock, lid: int, token: string)
  {
    b < |ss| && forall t | a <= t <= b :: c in ss[t].clients && ss[t].clients[c].lid == lid && ss[t].clients[c].token == token
  }

  /** Event i is the connect that issued the LID and the token. */
  ghost predicate IssuedAt(es: seq<Event>, ss: seq<State>, i: nat, c: Sock, lid: int, token: string)
  {
    i < |es| && i < |ss| && es[i] == ClientConnected(c, token) && Int32(ss[i].seed) == lid
  }

  /** Event j verified c with the password an account with this uid had at that moment. */
  ghost predicate VerifiedAt(es: seq<Event>, ss: seq<State>, j: nat, c: Sock, uid: nat)
  {
    j < |es| && j < |ss| && es[j].VerifyAccount? && es[j].c == c
    && exists r :: r in ss[j].accounts && r.account == es[j].account && r.password == es[j].password && r.uid == uid
  }

  /** Event k presented the LID and its token on the connection then registered as sid. */
  ghost predicate BoundAt(es: seq<Event>, ss: seq<State>, k: nat, lid: int, token: string, sid: int)
  {
    k < |es| && k < |ss| && es[k].UserVerify? && es[k].lid == lid && es[k].token == token
    && sid in ss[k].registry && ss[k].registry[sid] == es[k].g
  }

  /** Event m is the login request of c that added the row. */
  ghost predicate EnteredAt(es: seq<Event>, ss: seq<State>, m: nat, c: Sock, row: OnlineRow)
  {
    m < |es| && m + 1 < |ss| && es[m].LoginGame? && es[m].c == c && ss[m + 1].online == ss[m].online + [row]
  }

  /** All an event can do to a client that was and stays connected: give it a uid if it has none,
      by the password of an account; or give it a server if it has none, once it is verified. */
  lemma ClientAfterStep(s: State, e: Event, c: Sock)
    requires Inv(s) && Enabled(s, e) && c in Step(s, e).clients && !(e.ClientConnected? && e.c == c)
    ensures c in s.clients
    ensures var x, y := s.clients[c], Step(s, e).clients[c];
            && y.lid == x.lid && y.token == x.token
            && (y.uid != x.uid ==>
                  x.uid == 0 && e.VerifyAccount? && e.c == c
                  && exists r :: r in s.accounts && r.account == e.account && r.password == e.password && r.uid == y.uid)
            && (y.gs != x.gs ==>
                  x.gs == 0 && y.uid == x.uid != 0 && e.UserVerify? && e.lid == x.lid && e.token == x.token
                  && y.gs in s.registry && s.registry[y.gs] == e.g && y.gid == e.gid && y.code == e.code)
            && (y.gs == x.gs ==> y.gid == x.gid && y.code == x.code)
  {
    match e
    case VerifyAccount(_, account, password) => VerifiedUid(s.accounts, account, password);
    case _ =>
  }

  /** Client c was connected by event i, verified by event j if it has a uid, and then bound by event
      k if it has a server. */
  ghost predicate Story(es: seq<Event>, ss: seq<State>, n: nat, c: Sock, i: nat, j: nat, k: nat)
    requires n < |ss| && c in ss[n].clients
  {
    var cl := ss[n].clients[c];
    && i < n && IssuedAt(es, ss, i, c, cl.lid, cl.token) && Holds(ss, i + 1, n, c, cl.lid, cl.token)
    && (cl.uid != 0 ==> i < j < n && VerifiedAt(es, ss, j, c, cl.uid))
    && (cl.gs != 0 ==> cl.uid != 0 && j < k < n && BoundAt(es, ss, k, cl.lid, cl.token, cl.gs)
                       && cl.gid == es[k].gid && cl.code == es[k].code)
  }

  /** A story goes on with the next event, which may verify or bind the client. */
  lemma {:induction false} StoryGoesOn(es: seq<Event>, ss: seq<State>, n: nat, c: Sock, i: nat, j: nat, k: nat)
    returns (j': nat, k': nat)
    requires StepAt(es, ss, n) && Inv(ss[n]) && c in ss[n + 1].clients && !(es[n].ClientConnected? && es[n].c == c)
    requires c in ss[n].clients && Story(es, ss, n, c, i, j, k)
    ensures Story(es, ss, n + 1, c, i, j', k')
  {
    ClientAfterStep(ss[n], es[n], c);
    var x, y := ss[n].clients[c], ss[n + 1].clients[c];
    assert Holds(ss, i + 1, n + 1, c, y.lid, y.token);
    j' := if y.uid != x.uid then n else j;
    k' := if y.gs != x.gs then n else k;
  }

  /** The story of a live client: connected first, then verified if it has a uid, then bound if
      it has a server, with the player index and code of the binding request. */
  lemma {:induction false} ClientStory(es: seq<Event>, ss: seq<State>, n: nat, c: Sock) returns (i: nat, j: nat, k: nat)
    requires IsRun(es, ss) && n < |ss| && c in ss[n].clients
    ensures Story(es, ss, n, c, i, j, k)
  {
    assert StepAt(es, ss, n - 1);
    if es[n - 1].ClientConnected? && es[n - 1].c == c {
      i, j, k := n - 1, 0, 0;
    } else {
      RunInv(es, ss, n - 1);
      ClientAfterStep(ss[n - 1], es[n - 1], c);
      i, j, k := ClientStory(es, ss, n - 1, c);
      j, k := StoryGoesOn(es, ss, n - 1, c, i, j, k);
    }
  }

  /** Every presence row has its whole story behind it, in this order: the connect that issued its
      LID, the verification with the account's password, the binding by the registered server the
      row names, and the login; the client held its LID and token from the first to the last. */
  lemma {:induction false} RowStory(es: seq<Event>, ss: seq<State>, n: nat, row: OnlineRow)
    returns (c: Sock, token: string, i: nat, j: nat, k: nat, m: nat)
    requires IsRun(es, ss) && n < |ss| && row in ss[n].online
    ensures i < j < k < m < n
    ensures IssuedAt(es, ss, i, c, row.lid, token) && Holds(ss, i + 1, m, c, row.lid, token)
    ensures VerifiedAt(es, ss, j, c, row.uid)
    ensures BoundAt(es, ss, k, row.lid, token, row.sid)
    ensures EnteredAt(es, ss, m, c, row)
  {
    assert StepAt(es, ss, n - 1);
    if row in ss[n - 1].online {
      c, token, i, j, k, m := RowStory(es, ss, n - 1, row);
    } else {
      m := n - 1;
      c := es[m].c;
      token := ss[m].clients[c].token;
      i, j, k := ClientStory(es, ss, m, c);
    }
  }

  // When exactly a row is there.

  /** The event takes the row out of the table. */
  predicate Removes(s: State, e: Event, row: OnlineRow)
  {
    match e
    case ServerDisconnected(g, deleted) => deleted && g in s.servers && s.servers[g].id == row.sid
    case PlayerDisconnected(g, player, lid, deleted) =>
      deleted && g in s.servers && s.servers[g].id == row.sid && UInt32(player) == row.uid && lid == row.lid
    case _ => false
  }

  /** The event is a login of the row's client that was admitted and recorded. */
  predicate Enters(s: State, e: Event, row: OnlineRow)
  {
    && e.LoginGame? && e.written && ReplyToLogin(s, e.c, e.prev, e.save).Admitted?
    && s.clients[e.c].uid == row.uid && s.clients[e.c].gs == row.sid && s.clients[e.c].lid == row.lid
  }

  lemma RowAfterStep(s: State, e: Event, row: OnlineRow)
    requires Inv(s) && Enabled(s, e)
    ensures row in Step(s, e).online <==> Enters(s, e, row) || (row in s.online && !Removes(s, e, row))
  {
    match e
    case ServerDisconnected(g, deleted) =>
      if g in s.servers && s.servers[g].id != 0 && deleted {
        assert NotOnServer(s.servers[g].id)(row) <==> s.servers[g].id != row.sid;
      }
    case PlayerDisconnected(g, player, lid, deleted) =>
      if g in s.servers && s.servers[g].id != 0 && deleted {
        assert NotSession(UInt32(player), s.servers[g].id, lid)(row) <==> !Removes(s, e, row);
      }
    case LoginGame(c, prev, save, written) =>
      if ReplyToLogin(s, c, prev, save).Admitted? && written {
        var added := OnlineRow(s.clients[c].uid, s.clients[c].gs, s.clients[c].lid);
        assert Step(s, e).online == s.online + [added];
        assert Enters(s, e, row) <==> row == added;
      }
    case _ =>
  }

  /** A row is in the table exactly when its client was admitted and nothing since has removed it:
      neither its server going away nor that server's notice for the player. */
  lemma {:induction false} OnlineExactly(es: seq<Event>, ss: seq<State>, n: nat, row: OnlineRow)
    requires IsRun(es, ss) && n < |ss|
    ensures row in ss[n].online <==>
            exists m :: 0 <= m < n && Enters(ss[m], es[m], row) && forall t | m < t < n :: !Removes(ss[t], es[t], row)
  {
    if n > 0 {
      OnlineExactly(es, ss, n - 1, row);
      RunInv(es, ss, n - 1);
      assert StepAt(es, ss, n - 1);
      RowAfterStep(ss[n - 1], es[n - 1], row);
      if row in ss[n - 1].online && !Removes(ss[n - 1], es[n - 1], row) {
        var m :| 0 <= m < n - 1 && Enters(ss[m], es[m], row) && forall t | m < t < n - 1 :: !Removes(ss[t], es[t], row);
        assert forall t | m < t < n :: !Removes(ss[t], es[t], row);
      } else if Enters(ss[n - 1], es[n - 1], row) {
        var m := n - 1;
        assert 0 <= m < n && Enters(ss[m], es[m], row);
      }
    }
  }

  // Write-once identity.

  /** While a client stays connected its LID and token are fixed, its uid is set at most once, and
      its server, player index and connection code are set at most once and together. */
  lemma {:induction false} IdentityIsWriteOnce(es: seq<Event>, ss: seq<State>, a: nat, b: nat, c: Sock)
    requires IsRun(es, ss) && a <= b < |ss|
    requires forall t | a <= t <= b :: c in ss[t].clients
    ensures var x, y := ss[a].clients[c], ss[b].clients[c];
            && x.lid == y.lid && x.token == y.token
            && (x.uid != 0 ==> y.uid == x.uid)
            && (x.gs != 0 ==> y.gs == x.gs && y.gid == x.gid && y.code == x.code)
            && (y.gs == 0 ==> y.gid == x.gid && y.code == x.code)
    decreases b
  {
    if a < b {
      IdentityIsWriteOnce(es, ss, a, b - 1, c);
      RunInv(es, ss, b - 1);
      assert StepAt(es, ss, b - 1) && c in ss[b].clients;
      ClientAfterStep(ss[b - 1], es[b - 1], c);
    }
  }

  lemma ServerAfterStep(s: State, e: Event, g: Sock)
    requires Enabled(s, e) && g in s.servers && s.servers[g].id != 0 && g in Step(s, e).servers
    ensures Step(s, e).servers[g] == s.servers[g]
  {
  }

  /** While a game-server connection stays, its id, name and address are set at most once, and from
      then on it is the registered holder of its id. */
  lemma {:induction false} ServerIsWriteOnce(es: seq<Event>, ss: seq<State>, a: nat, b: nat, g: Sock)
    requires IsRun(es, ss) && a <= b < |ss|
    requires forall t | a <= t <= b :: g in ss[t].servers
    requires ss[a].servers[g].id != 0
    ensures ss[b].servers[g] == ss[a].servers[g]
    ensures var id := ss[a].servers[g].id; id in ss[b].registry && ss[b].registry[id] == g
    decreases b
  {
    RunInv(es, ss, b);
    if a < b {
      ServerIsWriteOnce(es, ss, a, b - 1, g);
      assert StepAt(es, ss, b - 1) && g in ss[b].servers;
      ServerAfterStep(ss[b - 1], es[b - 1], g);
    }
  }

  /** Two connects are issued the same LID exactly when a multiple of 2^32 connects lies between them. */
  lemma LidsRepeat(es: seq<Event>, ss: seq<State>, i: nat, j: nat)
    requires IsRun(es, ss) && i < j < |es| && es[i].ClientConnected? && es[j].ClientConnected?
    ensures ss[i].seed < ss[j].seed
    ensures es[i].c in ss[i + 1].clients && es[j].c in ss[j + 1].clients
    ensures ss[i + 1].clients[es[i].c].lid == ss[j + 1].clients[es[j].c].lid
            <==> (ss[j].seed - ss[i].seed) % TWO_32 == 0
    ensures FirstTurn(ss[j + 1]) ==> ss[i + 1].clients[es[i].c].lid != ss[j + 1].clients[es[j].c].lid
  {
    SeedGrows(es, ss, i + 1, j);
    SeedGrows(es, ss, 0, i);
    Int32Collides(ss[i].seed, ss[j].seed);
    assert StepAt(es, ss, i) && StepAt(es, ss, j);
  }

  // Admission.

  /** Whichever matching row the presence query returns, the request is turned away as a second
      login exactly when some row of the player is on another server than the client's. */
  lemma ReloginExactly(es: seq<Event>, ss: seq<State>, n: nat, c: Sock, prev: Option<OnlineRow>, save: SaveOutcome)
    requires IsRun(es, ss) && n < |ss| && c in ss[n].clients && ss[n].clients[c].gs != 0
    requires Selects(ss[n].online, OfUid(ss[n].clients[c].uid), prev)
    ensures var s, cl := ss[n], ss[n].clients[c];
            (ReplyToLogin(s, c, prev, save).QuickMessage? && ReplyToLogin(s, c, prev, save).id == QM_RELOGIN)
            <==> exists r :: r in s.online && r.uid == cl.uid && r.sid != cl.gs
  {
    RunInv(es, ss, n);
    var s, cl := ss[n], ss[n].clients[c];
    if r :| r in s.online && r.uid == cl.uid && r.sid != cl.gs {
      assert OfUid(cl.uid)(r);
    }
  }

  /** An admitted client is told apart from every other way out: it is verified and bound, its
      server is registered, its rows are all there, and its save file loaded. */
  lemma AdmittedExactly(es: seq<Event>, ss: seq<State>, n: nat, c: Sock, prev: Option<OnlineRow>, save: SaveOutcome)
    requires IsRun(es, ss) && n < |ss| && c in ss[n].clients
    requires Selects(ss[n].online, OfUid(ss[n].clients[c].uid), prev)
    ensures var s, cl := ss[n], ss[n].clients[c];
            ReplyToLogin(s, c, prev, save).Admitted? <==>
              && cl.gs in s.registry && save.Loaded?
              && forall r | r in s.online && r.uid == cl.uid :: r.sid == cl.gs
  {
    RunInv(es, ss, n);
    var s, cl := ss[n], ss[n].clients[c];
    forall r | r in s.online && r.uid == cl.uid ensures OfUid(cl.uid)(r) {}
  }

  /** Once a server reports a player gone and that removes the player's last rows, however many
      duplicates there were, the player is not turned away as a second login on any server. */
  lemma NoReloginAfterLeaving(es: seq<Event>, ss: seq<State>, n: nat, c: Sock, prev: Option<OnlineRow>,
                              save: SaveOutcome)
    requires IsRun(es, ss) && n < |es| && es[n].PlayerDisconnected? && es[n].deleted
    requires es[n].g in ss[n].servers && ss[n].servers[es[n].g].id != 0
    requires forall r | r in ss[n].online && r.uid == UInt32(es[n].player) ::
               r.sid == ss[n].servers[es[n].g].id && r.lid == es[n].lid
    requires c in ss[n + 1].clients && ss[n + 1].clients[c].uid == UInt32(es[n].player)
    requires Selects(ss[n + 1].online, OfUid(ss[n + 1].clients[c].uid), prev)
    ensures forall r | r in ss[n + 1].online :: r.uid != UInt32(es[n].player)
    ensures var reply := ReplyToLogin(ss[n + 1], c, prev, save);
            !(reply.QuickMessage? && reply.id == QM_RELOGIN)
  {
    assert StepAt(es, ss, n);
    var uid, sid := UInt32(es[n].player), ss[n].servers[es[n].g].id;
    forall r | r in ss[n + 1].online ensures r.uid != uid {
      assert NotSession(uid, sid, es[n].lid)(r);
    }
  }
}
