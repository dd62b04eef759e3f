/** The login session protocol as a transition system. Every socket event is handled by one
    pass of the server's select loop, so each handler is one atomic step. Connections are
    numbered by the sockets the network library hands out; a node is the user data of its socket. */
module LoginProtocol {
  import opened GoInts
  import opened Tables
  import opened Accounts

  type Sock = nat

  /** The session part of a client node. uid and gs are 0 until the client is verified and bound. */
  datatype Client = Client(lid: int, token: string, uid: nat, gs: int, gid: int, code: int)

  /** A game-server connection. id is 0 until it registers. */
  datatype Server = Server(connId: int, id: int, name: string, address: string)

  datatype OnlineRow = OnlineRow(uid: nat, sid: int, lid: int)

  datatype State = State(
    seed: int,
    clients: map<Sock, Client>,     // user data of the client sockets
    nodes: map<int, Sock>,          // client nodes by LID
    users: map<nat, seq<Sock>>,     // verified client nodes by uid
    serverSeed: int,
    servers: map<Sock, Server>,     // user data of the game-server sockets
    registry: map<int, Sock>,       // registered game servers by server id
    online: seq<OnlineRow>,
    accounts: seq<AccountRow>)

  /** What the save-file library makes of a login; the library itself is foreign code. */
  datatype SaveOutcome = NoFile | NoRole | Unreadable | Loaded

  datatype Event =
    | ClientConnected(c: Sock, token: string)
    | ClientDisconnected(c: Sock)
    | VerifyAccount(c: Sock, account: string, password: string)
    | LoginGame(c: Sock, prev: Option<OnlineRow>, save: SaveOutcome, written: bool)
    | ServerConnected(g: Sock)
    | ServerDisconnected(g: Sock, deleted: bool)
    | RegisterServer(g: Sock, id: int, name: string, address: string)
    | UserVerify(g: Sock, lid: int, token: string, gid: int, code: int)
    | PlayerDisconnected(g: Sock, player: int, lid: int, deleted: bool)
    | AccountsChanged(table: seq<AccountRow>)

  /** The answer of a login request; quick messages carry the number the client is sent. */
  datatype LoginReply = NotVerified | QuickMessage(id: int, param: int) | Admitted(server: Sock)

  const QM_HUM_SAVE_NOT_EXIST := 2
  const QM_SAVE_NOT_VALID := 3
  const QM_HUM_DATA_NOT_EXIST := 5
  const QM_NO_GS_AVAILABLE := 7
  const QM_RELOGIN := 10

  // Clauses of the statements on online_player.

  function OfUid(uid: nat): OnlineRow -> bool { (r: OnlineRow) => r.uid == uid }

  function NotOnServer(sid: int): OnlineRow -> bool { (r: OnlineRow) => r.sid != sid }

  function NotSession(uid: nat, sid: int, lid: int): OnlineRow -> bool {
    (r: OnlineRow) => !(r.uid == uid && r.sid == sid && r.lid == lid)
  }

  // The client side.

  function Init(): State
  {
    State(1, map[], map[], map[], 1, map[], map[], [], [])
  }

  function OnClientConnected(s: State, c: Sock, token: string): State
  {
    var lid := Int32(s.seed);
    s.(seed := s.seed + 1,
       clients := s.clients[c := Client(lid, token, 0, 0, 0, 0)],
       nodes := s.nodes[lid := c])
  }

  /** The list without the first occurrence of x. */
  function RemoveFirst<T(==)>(xs: seq<T>, x: T): seq<T>
  {
    if xs == [] then []
    else if xs[0] == x then xs[1..]
    else [xs[0]] + RemoveFirst(xs[1..], x)
  }

  function AddUser(users: map<nat, seq<Sock>>, uid: nat, c: Sock): map<nat, seq<Sock>>
  {
    users[uid := (if uid in users then users[uid] else []) + [c]]
  }

  function DropUser(users: map<nat, seq<Sock>>, uid: nat, c: Sock): map<nat, seq<Sock>>
  {
    if uid in users then users[uid := RemoveFirst(users[uid], c)] else users
  }

  function OnClientDisconnected(s: State, c: Sock): State
  {
    if c !in s.clients then s
    else
      var cl := s.clients[c];
      s.(clients := s.clients - {c},
         nodes := s.nodes - {cl.lid},
         users := DropUser(s.users, cl.uid, c))
  }

  /** The verdict on a verify request: 0 passes, 1 is no such account, 2 is a wrong password.
      The row is the account's, which the caller's uid comes from. */
  function VerifyCode(accounts: seq<AccountRow>, account: string, password: string): (int, Option<AccountRow>)
  {
    var found := AccountByName(accounts, account);
    if !Exists(accounts, HasAccount(account)) || found.None? then (1, None)
    else if found.value.password != password then (2, None)
    else (0, found)
  }

  function OnVerifyAccount(s: State, c: Sock, account: string, password: string): State
  {
    if c !in s.clients || s.clients[c].uid != 0 then s
    else
      var (ret, row) := VerifyCode(s.accounts, account, password);
      if row.None? then s
      else
        s.(clients := s.clients[c := s.clients[c].(uid := row.value.uid)],
           users := AddUser(s.users, row.value.uid, c))
  }

  /** The decision on a login request, in the order the checks are made. prev is the first row
      the presence query returned for the client's uid. */
  function ReplyToLogin(s: State, c: Sock, prev: Option<OnlineRow>, save: SaveOutcome): LoginReply
  {
    if c !in s.clients || s.clients[c].uid == 0 then NotVerified
    else
      var cl := s.clients[c];
      if cl.gs == 0 then QuickMessage(QM_NO_GS_AVAILABLE, 0)
      else if prev.Some? && prev.value.sid != 0 && prev.value.sid != cl.gs then
        QuickMessage(QM_RELOGIN, Int32(prev.value.sid))
      else if cl.gs !in s.registry then QuickMessage(QM_NO_GS_AVAILABLE, 0)
      else match save
        case NoFile => QuickMessage(QM_HUM_SAVE_NOT_EXIST, 0)
        case NoRole => QuickMessage(QM_HUM_DATA_NOT_EXIST, 0)
        case Unreadable => QuickMessage(QM_SAVE_NOT_VALID, 0)
        case Loaded => Admitted(s.registry[cl.gs])
  }

  function OnLoginGame(s: State, c: Sock, prev: Option<OnlineRow>, save: SaveOutcome, written: bool): State
  {
    if ReplyToLogin(s, c, prev, save).Admitted? && written then
      s.(online := s.online + [OnlineRow(s.clients[c].uid, s.clients[c].gs, s.clients[c].lid)])
    else s
  }

  // The game-server side.

  function OnServerConnected(s: State, g: Sock): State
  {
    s.(serverSeed := s.serverSeed + 1, servers := s.servers[g := Server(s.serverSeed, 0, "", "")])
  }

  /** The registry entry of the connection's id goes whatever the id is; the rows go only for a
      registered connection, and the result of that delete is not looked at. */
  function OnServerDisconnected(s: State, g: Sock, deleted: bool): State
  {
    if g !in s.servers then s
    else
      var id := s.servers[g].id;
      s.(servers := s.servers - {g},
         registry := s.registry - {id},
         online := if id != 0 && deleted then Where(s.online, NotOnServer(id)) else s.online)
  }

  function OnRegisterServer(s: State, g: Sock, id: int, name: string, address: string): State
  {
    if g !in s.servers || s.servers[g].id != 0 || id == 0 || id in s.registry then s
    else
      s.(servers := s.servers[g := Server(s.servers[g].connId, id, name, address)],
         registry := s.registry[id := g])
  }

  /** True when a binding request from g for the client on c is carried out. */
  predicate Binds(s: State, g: Sock, lid: int, token: string)
  {
    && g in s.servers && s.servers[g].id != 0
    && lid in s.nodes && s.nodes[lid] in s.clients
    && var cl := s.clients[s.nodes[lid]];
       cl.uid != 0 && token == cl.token && cl.gs == 0
  }

  function OnUserVerify(s: State, g: Sock, lid: int, token: string, gid: int, code: int): State
  {
    if !Binds(s, g, lid, token) then s
    else
      var c := s.nodes[lid];
      s.(clients := s.clients[c := s.clients[c].(gs := s.servers[g].id, gid := gid, code := code)])
  }

  function OnPlayerDisconnected(s: State, g: Sock, player: int, lid: int, deleted: bool): State
  {
    if g in s.servers && s.servers[g].id != 0 && deleted then
      s.(online := Where(s.online, NotSession(UInt32(player), s.servers[g].id, lid)))
    else s
  }

  /** What the environment guarantees of an event: a connect comes on a socket not in use, the
      presence query answers with a matching row if there is one, and account tables keep the
      uniqueness constraints of the schema with uids that are not 0. */
  ghost predicate Enabled(s: State, e: Event)
  {
    match e
    case ClientConnected(c, _) => c !in s.clients
    case ServerConnected(g) => g !in s.servers
    case LoginGame(c, prev, _, _) => c in s.clients ==> Selects(s.online, OfUid(s.clients[c].uid), prev)
    case AccountsChanged(table) => AccountKeys(table)
    case _ => true
  }

  function Step(s: State, e: Event): State
  {
    match e
    case ClientConnected(c, token) => OnClientConnected(s, c, token)
    case ClientDisconnected(c) => OnClientDisconnected(s, c)
    case VerifyAccount(c, account, password) => OnVerifyAccount(s, c, account, password)
    case LoginGame(c, prev, save, written) => OnLoginGame(s, c, prev, save, written)
    case ServerConnected(g) => OnServerConnected(s, g)
    case ServerDisconnected(g, deleted) => OnServerDisconnected(s, g, deleted)
    case RegisterServer(g, id, name, address) => OnRegisterServer(s, g, id, name, address)
    case UserVerify(g, lid, token, gid, code) => OnUserVerify(s, g, lid, token, gid, code)
    case PlayerDisconnected(g, player, lid, deleted) => OnPlayerDisconnected(s, g, player, lid, deleted)
    case AccountsChanged(table) => s.(accounts := table)
  }

  /** State i + 1 is what event i makes of state i. */
  ghost predicate StepAt(es: seq<Event>, ss: seq<State>, i: nat)
  {
    i < |es| && i + 1 < |ss| && Enabled(ss[i], es[i]) && ss[i + 1] == Step(ss[i], es[i])
  }

  /** ss are the states passed through when es happen from the state at startup. */
  ghost predicate IsRun(es: seq<Event>, ss: seq<State>)
  {
    |ss| == |es| + 1 && ss[0] == Init() && forall i: nat | i < |es| :: StepAt(es, ss, i)
  }
}
