/** Runs that reach the states in which the login server keeps less than one would like: each lemma
    builds one, event by event. */
module LoginRaces {
  import opened GoInts
  import opened Tables
  import opened Accounts
  import opened LoginProtocol
  import opened LoginInvariants
  import opened LoginHistory
  import opened LoginLookups
  import opened LoginLids

  ghost predicate Ends(es: seq<Event>, ss: seq<State>, s: State)
  {
    IsRun(es, ss) && ss[|es|] == s
  }

  /** One more event. */
  lemma Then(es: seq<Event>, ss: seq<State>, s: State, e: Event, t: State) returns (es': seq<Event>, ss': seq<State>)
    requires Ends(es, ss, s) && Enabled(s, e) && t == Step(s, e)
    ensures Ends(es', ss', t) && es' == es + [e] && ss' == ss + [t]
  {
    es', ss' := es + [e], ss + [t];
    forall i: nat | i < |es'| ensures StepAt(es', ss', i) {
      if i < |es| { assert StepAt(es, ss, i); }
    }
  }

  function OneAccount(uid: nat, account: string, password: string): AccountRow
  {
    AccountRow(uid, account, password, "", "", "", false, "")
  }

  /** In a table with proper keys, an account's password verifies that account. */
  lemma AccountFound(accounts: seq<AccountRow>, row: AccountRow)
    requires AccountKeys(accounts) && row in accounts && |row.account| <= 20
    ensures VerifyCode(accounts, row.account, row.password) == (0, Some(row))
  {
    VerifiedUid(accounts, row.account, row.password);
    var found := VerifyCode(accounts, row.account, row.password).1.value;
    var i :| 0 <= i < |accounts| && accounts[i] == row;
    var j :| 0 <= j < |accounts| && accounts[j] == found;
    assert AccountOf()(accounts[i]) == AccountOf()(accounts[j]);
  }

  lemma OneAccountFound(uid: nat, account: string, password: string)
    requires uid != 0 && |account| <= 20
    ensures var row := OneAccount(uid, account, password);
            AccountKeys([row]) && VerifyCode([row], account, password) == (0, Some(row))
  {
    AccountFound([OneAccount(uid, account, password)], OneAccount(uid, account, password));
  }

  /** The server with one client, connected as LID 1 and verified. */
  function OneVerified(uid: nat, account: string, password: string, token: string): State
  {
    State(2, map[0 := Client(1, token, uid, 0, 0, 0)], map[1 := 0], map[uid := [0]], 1, map[], map[], [],
          [OneAccount(uid, account, password)])
  }

  lemma VerifyOne(uid: nat, account: string, password: string, token: string) returns (es: seq<Event>, ss: seq<State>)
    requires uid != 0 && |account| <= 20
    ensures Ends(es, ss, OneVerified(uid, account, password, token))
  {
    OneAccountFound(uid, account, password);
    var row := OneAccount(uid, account, password);
    var known := Init().(accounts := [row]);
    var joined := known.(seed := 2, clients := map[0 := Client(1, token, 0, 0, 0, 0)], nodes := map[1 := 0]);
    es, ss := Then([], [Init()], Init(), AccountsChanged([row]), known);
    assert Int32(1) == 1;
    es, ss := Then(es, ss, known, ClientConnected(0, token), joined);
    var verified := OneVerified(uid, account, password, token);
    assert joined.clients[0 := Client(1, token, uid, 0, 0, 0)] == verified.clients;
    assert AddUser(joined.users, uid, 0) == verified.users by {
      var list: seq<Sock> := [0];
      assert [] + list == list && AddUser(joined.users, uid, 0) == joined.users[uid := [] + list];
    }
    es, ss := Then(es, ss, joined, VerifyAccount(0, account, password), verified);
  }

  /** The server with that client bound to the one registered server and shown online there. */
  function OneOnline(uid: nat, account: string, password: string, token: string, sid: int): State
  {
    OneVerified(uid, account, password, token).(
      clients := map[0 := Client(1, token, uid, sid, 0, 0)], serverSeed := 2,
      servers := map[0 := Server(1, sid, "", "")], registry := map[sid := 0], online := [OnlineRow(uid, sid, 1)])
  }

  lemma LoginOne(uid: nat, account: string, password: string, token: string, sid: int)
    returns (es: seq<Event>, ss: seq<State>)
    requires uid != 0 && |account| <= 20 && sid != 0
    ensures Ends(es, ss, OneOnline(uid, account, password, token, sid))
  {
    es, ss := VerifyOne(uid, account, password, token);
    var s := OneVerified(uid, account, password, token);
    var attached := s.(serverSeed := 2, servers := map[0 := Server(1, 0, "", "")]);
    var registered := attached.(servers := map[0 := Server(1, sid, "", "")], registry := map[sid := 0]);
    var bound := registered.(clients := map[0 := Client(1, token, uid, sid, 0, 0)]);
    es, ss := Then(es, ss, s, ServerConnected(0), attached);
    assert attached.servers[0 := Server(1, sid, "", "")] == registered.servers;
    es, ss := Then(es, ss, attached, RegisterServer(0, sid, "", ""), registered);
    assert registered.clients[0 := Client(1, token, uid, sid, 0, 0)] == bound.clients;
    es, ss := Then(es, ss, registered, UserVerify(0, 1, token, 0, 0), bound);
    assert [] + [OnlineRow(uid, sid, 1)] == [OnlineRow(uid, sid, 1)];
    es, ss := Then(es, ss, bound, LoginGame(0, None, Loaded, true), OneOnline(uid, account, password, token, sid));
  }

  /** A server can go and its rows stay: for every player, account and server id there is a run that
      ends with the player shown on a server that is not registered, and in which nothing failed but
      the delete on that server's disconnect. */
  lemma StrandedRow(uid: nat, account: string, password: string, token: string, sid: int)
    returns (es: seq<Event>, ss: seq<State>)
    requires uid != 0 && |account| <= 20 && sid != 0
    ensures IsRun(es, ss) && |es| > 0 && LeavesRows(ss[|es| - 1], es[|es| - 1])
    ensures OnlineRow(uid, sid, 1) in ss[|es|].online && sid !in ss[|es|].registry
    ensures !PresenceBacked(ss[|es|])
  {
    es, ss := LoginOne(uid, account, password, token, sid);
    var s := OneOnline(uid, account, password, token, sid);
    var row := OnlineRow(uid, sid, 1);
    assert row in s.online;
    es, ss := Then(es, ss, s, ServerDisconnected(0, false), s.(servers := s.servers - {0}, registry := s.registry - {sid}));
    assert row in ss[|es|].online;
  }

  /** n more connects leave everybody who is connected, the servers and the rows as they are, and
      issue no LID 1 as long as the counter does not go round. */
  lemma {:induction false} ConnectMany(es: seq<Event>, ss: seq<State>, s: State, c: Sock, n: nat)
    returns (es': seq<Event>, ss': seq<State>, t: State)
    requires Ends(es, ss, s) && (forall d | d in s.clients :: d < c) && 2 <= s.seed && s.seed + n <= TWO_32 + 1
    ensures Ends(es', ss', t) && t.seed == s.seed + n
    ensures t.users == s.users && t.servers == s.servers && t.registry == s.registry && t.online == s.online
    ensures forall d | d in s.clients :: d in t.clients && t.clients[d] == s.clients[d]
    ensures forall d | d in t.clients :: d < c + n && (d in s.clients || t.clients[d].lid != 1)
  {
    if n == 0 {
      es', ss', t := es, ss, s;
    } else {
      es', ss', t := ConnectMany(es, ss, s, c, n - 1);
      var e := ClientConnected(c + n - 1, "");
      var u := Step(t, e);
      Int32Collides(1, t.seed);
      es', ss' := Then(es', ss', t, e, u);
      t := u;
    }
  }

  /** A LID can be issued while its first holder is still connected: for every player there is a run
      whose last event is such a connect, after which the node map no longer leads to the player and
      the two lookups disagree. */
  lemma TakenLid(uid: nat, account: string, password: string, token: string) returns (es: seq<Event>, ss: seq<State>)
    requires uid != 0 && |account| <= 20
    ensures IsRun(es, ss) && |es| > 0 && Takes(ss[|es| - 1], es[|es| - 1])
    ensures 0 in ss[|es|].clients && ss[|es|].clients[0].uid == uid && !Findable(ss[|es|])
    ensures ScanUsers(ss[|es|], uid, 1) == Some(0) && NodeOfUid(ss[|es|], uid, 1) == None
  {
    es, ss := VerifyOne(uid, account, password, token);
    var s := OneVerified(uid, account, password, token);
    var t;
    es, ss, t := ConnectMany(es, ss, s, 1, TWO_32 - 1);
    var c: Sock := TWO_32;
    assert 0 in s.clients && 0 in t.clients && c !in t.clients;
    assert t.seed == TWO_32 + 1 && Int32(t.seed) == 1;
    var u := Step(t, ClientConnected(c, ""));
    es, ss := Then(es, ss, t, ClientConnected(c, ""), u);
    assert u.nodes[1] == c && u.clients[c].uid == 0;
    assert u.users == map[uid := [0]] && u.clients[0].lid == 1;
    assert ScanList(u, [0], 1) == Some(0);
  }

  /** The server after its one player, shown online, has disconnected and 2^32 - 1 others have connected. */
  lemma ManyLater(uid: nat, account: string, password: string, token: string, sid: int)
    returns (es: seq<Event>, ss: seq<State>, t: State)
    requires uid != 0 && |account| <= 20 && sid != 0
    ensures Ends(es, ss, t) && t.seed == TWO_32 + 1 && t.users == map[uid := []]
    ensures t.servers == map[0 := Server(1, sid, "", "")] && t.registry == map[sid := 0]
    ensures t.online == [OnlineRow(uid, sid, 1)]
    ensures forall d | d in t.clients :: d < TWO_32 && t.clients[d].lid != 1
  {
    es, ss := LoginOne(uid, account, password, token, sid);
    var s := OneOnline(uid, account, password, token, sid);
    var left := s.(clients := map[], nodes := map[], users := map[uid := []]);
    assert [0][1..] == [] && s.clients - {0} == map[] && s.nodes - {1} == map[];
    assert DropUser(s.users, uid, 0) == map[uid := []];
    es, ss := Then(es, ss, s, ClientDisconnected(0), left);
    es, ss, t := ConnectMany(es, ss, left, 1, TWO_32 - 1);
  }

  /** A connect can also be issued the LID of a row whose client is gone: for every two players and two
      servers there is a run in which a LID changes its meaning in this way, and which ends with two
      rows of one LID that disagree on player and server. */
  lemma SharedLid(uid: nat, account: string, password: string, token: string, sid: int, other: AccountRow, sid': int)
    returns (es: seq<Event>, ss: seq<State>, n: nat)
    requires uid != 0 && |account| <= 20 && sid != 0
    requires other.uid != 0 && other.uid != uid && |other.account| <= 20 && sid' != 0 && sid' != sid
    ensures IsRun(es, ss) && n < |es|
    ensures Reuses(ss[n], es[n]) && !Takes(ss[n], es[n])
    ensures OnlineRow(uid, sid, 1) in ss[n + 1].online && !Means(ss[n + 1], OnlineRow(uid, sid, 1))
    ensures OnlineRow(uid, sid, 1) in ss[|es|].online && OnlineRow(other.uid, sid', 1) in ss[|es|].online
  {
    var t;
    es, ss, t := ManyLater(uid, account, password, token, sid);
    n := |es|;
    var c: Sock := TWO_32;
    var row := OnlineRow(uid, sid, 1);
    assert row in t.online && c !in t.clients;
    Int32Collides(1, t.seed);
    var u := Step(t, ClientConnected(c, token));
    assert u.clients[c] == Client(1, token, 0, 0, 0, 0) && u.nodes[1] == c;
    es, ss := Then(es, ss, t, ClientConnected(c, token), u);
    assert row in u.online && !Means(u, row);
    var es', ss', v := VerifyOther(es, ss, u, c, token, other);
    es', ss', v := RegisterOther(es', ss', v, sid');
    es', ss' := BindOther(es', ss', v, c, token, other.uid, sid');
    assert es'[..n + 1] == es && ss'[..n + 2] == ss;
    assert es'[n] == es[n] && ss'[n] == ss[n] && ss'[n + 1] == ss[n + 1];
    es, ss := es', ss';
  }

  /** A client just connected as LID 1 is verified as the player of a row. */
  lemma VerifyOther(es: seq<Event>, ss: seq<State>, s: State, c: Sock, token: string, row: AccountRow)
    returns (es': seq<Event>, ss': seq<State>, t: State)
    requires Ends(es, ss, s) && c in s.clients && s.clients[c] == Client(1, token, 0, 0, 0, 0)
    requires row.uid != 0 && |row.account| <= 20
    ensures Ends(es', ss', t) && es <= es' && ss <= ss'
    ensures c in t.clients && t.clients[c] == Client(1, token, row.uid, 0, 0, 0)
    ensures t.nodes == s.nodes && t.servers == s.servers && t.registry == s.registry && t.online == s.online
  {
    AccountFound([row], row);
    var known := s.(accounts := [row]);
    es', ss' := Then(es, ss, s, AccountsChanged([row]), known);
    t := Step(known, VerifyAccount(c, row.account, row.password));
    es', ss' := Then(es', ss', known, VerifyAccount(c, row.account, row.password), t);
  }

  /** A second server connects and registers. */
  lemma RegisterOther(es: seq<Event>, ss: seq<State>, s: State, sid: int)
    returns (es': seq<Event>, ss': seq<State>, t: State)
    requires Ends(es, ss, s) && sid != 0 && sid !in s.registry && 1 !in s.servers
    ensures Ends(es', ss', t) && es <= es' && ss <= ss'
    ensures t.clients == s.clients && t.nodes == s.nodes && t.online == s.online
    ensures 1 in t.servers && t.servers[1].id == sid && sid in t.registry && t.registry[sid] == 1
  {
    var attached := Step(s, ServerConnected(1));
    es', ss' := Then(es, ss, s, ServerConnected(1), attached);
    t := Step(attached, RegisterServer(1, sid, "", ""));
    es', ss' := Then(es', ss', attached, RegisterServer(1, sid, "", ""), t);
  }

  /** A verified client with LID 1 logs in on that server, and the rows shown before stay. */
  lemma BindOther(es: seq<Event>, ss: seq<State>, s: State, c: Sock, token: string, uid: nat, sid: int)
    returns (es': seq<Event>, ss': seq<State>)
    requires Ends(es, ss, s) && c in s.clients && s.clients[c] == Client(1, token, uid, 0, 0, 0)
    requires 1 in s.nodes && s.nodes[1] == c && uid != 0 && sid != 0
    requires 1 in s.servers && s.servers[1].id == sid && sid in s.registry
    requires forall r | r in s.online :: r.uid != uid
    ensures IsRun(es', ss') && es <= es' && ss <= ss' && ss'[|es'|].online == s.online + [OnlineRow(uid, sid, 1)]
  {
    var bind, login := UserVerify(1, 1, token, 0, 0), LoginGame(c, None, Loaded, true);
    var bound := s.(clients := s.clients[c := Client(1, token, uid, sid, 0, 0)]);
    es', ss' := Then(es, ss, s, bind, bound);
    es', ss' := Then(es', ss', bound, login, bound.(online := s.online + [OnlineRow(uid, sid, 1)]));
  }
}
