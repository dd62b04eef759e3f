/** The login server's handlers over the heap: nodes shared between the socket user data, the
    node map and the per-uid lists, updated in place. Each handler performs one step of the
    protocol, and the object records the run it has performed, so every state the handlers can
    bring it to is a state of a run. */
module LoginServer {
  import opened GoInts
  import opened Tables
  import opened Accounts
  import opened LoginProtocol
  import opened LoginInvariants
  import opened LoginHistory
  import opened LoginLookups

  class ClientNode {
    const conn: Sock
    var clientConnId: int
    var gsServerId: int
    var gsConnId: int
    var connCode: int
    var accessToken: string
    var uid: nat

    constructor (conn: Sock, clientConnId: int, accessToken: string)
      ensures this.conn == conn && Value() == Client(clientConnId, accessToken, 0, 0, 0, 0)
    {
      this.conn := conn;
      this.clientConnId := clientConnId;
      this.accessToken := accessToken;
      gsServerId, gsConnId, connCode, uid := 0, 0, 0, 0;
    }

    function Value(): Client
      reads this
    {
      Client(clientConnId, accessToken, uid, gsServerId, gsConnId, connCode)
    }
  }

  class ServerNode {
    const conn: Sock
    var serverConnId: int
    var serverId: int
    var serverName: string
    var exposeAddress: string

    constructor (conn: Sock, serverConnId: int)
      ensures this.conn == conn && Value() == Server(serverConnId, 0, "", "")
    {
      this.conn := conn;
      this.serverConnId := serverConnId;
      serverId, serverName, exposeAddress := 0, "", "";
    }

    function Value(): Server
      reads this
    {
      Server(serverConnId, serverId, serverName, exposeAddress)
    }
  }

  function Conns(nodes: seq<ClientNode>): (cs: seq<Sock>)
    ensures |cs| == |nodes| && forall i | 0 <= i < |nodes| :: cs[i] == nodes[i].conn
  {
    seq(|nodes|, i requires 0 <= i < |nodes| => nodes[i].conn)
  }

  function ServerConns<K>(nodes: map<K, ServerNode>): map<K, Sock>
  {
    map k | k in nodes :: nodes[k].conn
  }

  lemma ServerConnsUpdate<K>(nodes: map<K, ServerNode>, k: K, n: ServerNode)
    ensures ServerConns(nodes[k := n]) == ServerConns(nodes)[k := n.conn]
  {
  }

  lemma ServerConnsWithout<K>(nodes: map<K, ServerNode>, k: K)
    ensures ServerConns(nodes - {k}) == ServerConns(nodes) - {k}
  {
  }

  lemma {:induction false} RemoveFirstAt<T>(xs: seq<T>, i: nat, x: T)
    requires i < |xs| && xs[i] == x && x !in xs[..i]
    ensures RemoveFirst(xs, x) == xs[..i] + xs[i + 1..]
  {
    if i > 0 {
      assert xs[0] == xs[..i][0];
      assert xs[1..][..i - 1] == xs[..i][1..];
      RemoveFirstAt(xs[1..], i - 1, x);
    }
  }

  lemma {:induction false} RemoveFirstAbsent<T>(xs: seq<T>, x: T)
    requires x !in xs
    ensures RemoveFirst(xs, x) == xs
  {
    if xs != [] {
      RemoveFirstAbsent(xs[1..], x);
    }
  }

  lemma {:induction false} RemoveFirstKeeps<T>(xs: seq<T>, x: T, y: T)
    requires y in RemoveFirst(xs, x)
    ensures y in xs
  {
    if xs != [] && xs[0] != x && y != xs[0] {
      RemoveFirstKeeps(xs[1..], x, y);
    }
  }

  lemma {:induction false} ConnsRemoveFirst(ns: seq<ClientNode>, n: ClientNode)
    requires forall m | m in ns :: m.conn == n.conn ==> m == n
    ensures Conns(RemoveFirst(ns, n)) == RemoveFirst(Conns(ns), n.conn)
  {
    if ns != [] {
      assert Conns(ns)[1..] == Conns(ns[1..]);
      ConnsRemoveFirst(ns[1..], n);
    }
  }

  /** Dropping a connection that is listed at most once, under its uid, leaves no trace of it. */
  lemma DropUserLeavesNone(users: map<nat, seq<Sock>>, uid: nat, c: Sock)
    requires forall u | u in users && c in users[u] :: u == uid && Once(users[u])
    ensures forall u | u in users :: c !in DropUser(users, uid, c)[u]
  {
    if uid in users {
      if c in users[uid] { RemoveFirstOnce(users[uid], c); } else { RemoveFirstAbsent(users[uid], c); }
    }
  }

  lemma RegisteredOnce(s: State, g: Sock)
    requires RegistryExact(s) && g in s.servers
    ensures forall k | k in s.registry && s.registry[k] == g :: k == s.servers[g].id
  {
  }

  /** A run goes on with any event the environment allows. */
  lemma ExtendRun(es: seq<Event>, ss: seq<State>, e: Event)
    requires IsRun(es, ss) && Enabled(ss[|es|], e)
    ensures IsRun(es + [e], ss + [Step(ss[|es|], e)])
  {
    forall i: nat | i <= |es| ensures StepAt(es + [e], ss + [Step(ss[|es|], e)], i) {
      if i < |es| { assert StepAt(es, ss, i); }
    }
  }

  class SessionServer {
    var clientNodeSeed: int
    var clientData: map<Sock, ClientNode>          // user data of the client connections
    var clientNodeMap: map<int, ClientNode>
    var clientUserMap: map<nat, seq<ClientNode>>
    var serverNodeSeed: int
    var serverData: map<Sock, ServerNode>          // user data of the game-server connections
    var serverNodeMap: map<int, ServerNode>
    var online: seq<OnlineRow>
    var accounts: seq<AccountRow>

    ghost var es: seq<Event>
    ghost var ss: seq<State>

    ghost predicate Attached(n: ClientNode)
      reads this`clientData
    {
      n.conn in clientData && clientData[n.conn] == n
    }

    /** A node is reached only while it is the user data of its own connection. */
    ghost predicate ClientShape()
      reads this`clientData, this`clientNodeMap, this`clientUserMap
    {
      && (forall c | c in clientData :: clientData[c].conn == c)
      && (forall l | l in clientNodeMap :: Attached(clientNodeMap[l]))
      && (forall u, i | u in clientUserMap && 0 <= i < |clientUserMap[u]| :: Attached(clientUserMap[u][i]))
    }

    ghost predicate ServerShape()
      reads this`serverData, this`serverNodeMap
    {
      && (forall g | g in serverData :: serverData[g].conn == g)
      && (forall k | k in serverNodeMap ::
            serverNodeMap[k].conn in serverData && serverData[serverNodeMap[k].conn] == serverNodeMap[k])
    }

    ghost function Clients(): map<Sock, Client>
      reads this`clientData, clientData.Values
    {
      map c | c in clientData :: clientData[c].Value()
    }

    ghost function Nodes(): map<int, Sock>
      reads this`clientNodeMap
    {
      map l | l in clientNodeMap :: clientNodeMap[l].conn
    }

    ghost function Users(): map<nat, seq<Sock>>
      reads this`clientUserMap
    {
      map u | u in clientUserMap :: Conns(clientUserMap[u])
    }

    ghost function Servers(): map<Sock, Server>
      reads this`serverData, serverData.Values
    {
      map g | g in serverData :: serverData[g].Value()
    }

    ghost function Registry(): map<int, Sock>
      reads this`serverNodeMap
    {
      ServerConns(serverNodeMap)
    }

    ghost function Abs(): State
      reads this, clientData.Values, serverData.Values
    {
      State(clientNodeSeed, Clients(), Nodes(), Users(), serverNodeSeed, Servers(), Registry(), online, accounts)
    }

    ghost predicate Valid()
      reads this, clientData.Values, serverData.Values
    {
      ClientShape() && ServerShape() && IsRun(es, ss) && ss[|es|] == Abs()
    }

    constructor ()
      ensures Valid() && Abs() == Init() && es == []
    {
      clientNodeSeed, clientData, clientNodeMap, clientUserMap := 1, map[], map[], map[];
      serverNodeSeed, serverData, serverNodeMap := 1, map[], map[];
      online, accounts := [], [];
      es, ss := [], [Init()];
    }

    ghost method Record(e: Event)
      requires ClientShape() && ServerShape()
      requires IsRun(es, ss) && Enabled(ss[|es|], e) && Abs() == Step(ss[|es|], e)
      modifies this`es, this`ss
      ensures Valid() && es == old(es) + [e] && ss == old(ss) + [Abs()]
    {
      ExtendRun(es, ss, e);
      es, ss := es + [e], ss + [Abs()];
    }

    method AddClientNode(c: Sock, token: string)
      requires ClientShape() && c !in clientData
      modifies this`clientNodeSeed, this`clientData, this`clientNodeMap
      ensures ClientShape() && clientNodeSeed == old(clientNodeSeed) + 1
      ensures Clients() == old(Clients())[c := Client(Int32(old(clientNodeSeed)), token, 0, 0, 0, 0)]
      ensures Nodes() == old(Nodes())[Int32(old(clientNodeSeed)) := c]
    {
      var cn := new ClientNode(c, Int32(clientNodeSeed), token);
      clientNodeSeed := clientNodeSeed + 1;
      clientData := clientData[c := cn];
      clientNodeMap := clientNodeMap[cn.clientConnId := cn];
    }

    method AddClientToUserMap(client: ClientNode)
      modifies this`clientUserMap
      ensures clientUserMap == old(clientUserMap)[client.uid :=
                (if client.uid in old(clientUserMap) then old(clientUserMap)[client.uid] else []) + [client]]
    {
      if client.uid !in clientUserMap {
        clientUserMap := clientUserMap[client.uid := []];
      }
      clientUserMap := clientUserMap[client.uid := clientUserMap[client.uid] + [client]];
    }

    method RemoveClientFromUserMap(client: ClientNode) returns (removed: bool)
      modifies this`clientUserMap
      ensures removed <==> client.uid in old(clientUserMap) && client in old(clientUserMap)[client.uid]
      ensures clientUserMap == if client.uid !in old(clientUserMap) then old(clientUserMap)
                               else old(clientUserMap)[client.uid := RemoveFirst(old(clientUserMap)[client.uid], client)]
    {
      if client.uid !in clientUserMap {
        return false;
      }
      var clients := clientUserMap[client.uid];
      var head := 0;
      while head < |clients|
        invariant head <= |clients|
        invariant clientUserMap == old(clientUserMap)
        invariant client !in clients[..head]
      {
        if clients[head] == client {
          RemoveFirstAt(clients, head, client);
          clientUserMap := clientUserMap[client.uid := clients[..head] + clients[head + 1..]];
          return true;
        }
        head := head + 1;
      }
      RemoveFirstAbsent(clients, client);
      return false;
    }

    /** The first client of the uid's list with this LID. */
    method GetClientFromUserMap(uid: nat, lid: int) returns (r: ClientNode?)
      requires ClientShape()
      ensures match ScanUsers(Abs(), uid, lid)
              case None => r == null
              case Some(c) => r != null && c in clientData && r == clientData[c]
    {
      if uid !in clientUserMap {
        return null;
      }
      var clients := clientUserMap[uid];
      var head := 0;
      while head < |clients|
        invariant head <= |clients|
        invariant ScanUsers(Abs(), uid, lid) == ScanList(Abs(), Conns(clients)[head..], lid)
      {
        assert Attached(clients[head]);
        assert Conns(clients)[head..][1..] == Conns(clients)[head + 1..];
        if clients[head].clientConnId == lid {
          return clients[head];
        }
        head := head + 1;
      }
      return null;
    }

    /** Takes a disconnected client out of the node map and out of its uid's list. */
    method UnlinkClient(cn: ClientNode)
      requires forall u, n | u in clientUserMap && n in clientUserMap[u] :: n.conn == cn.conn ==> n == cn
      modifies this`clientNodeMap, this`clientUserMap
      ensures clientNodeMap == old(clientNodeMap) - {cn.clientConnId}
      ensures Users() == DropUser(old(Users()), cn.uid, cn.conn)
      ensures forall u, n | u in clientUserMap && n in clientUserMap[u] :: u in old(clientUserMap) && n in old(clientUserMap)[u]
    {
      ghost var users := clientUserMap;
      clientNodeMap := clientNodeMap - {cn.clientConnId};
      var _ := RemoveClientFromUserMap(cn);
      if cn.uid in users {
        ConnsRemoveFirst(users[cn.uid], cn);
        forall n | n in clientUserMap[cn.uid] ensures n in users[cn.uid] {
          RemoveFirstKeeps(users[cn.uid], cn, n);
        }
      }
    }

    method DropClientNode(c: Sock)
      requires ClientShape() && c in clientData
      requires forall l | l in Nodes() && Nodes()[l] == c :: l == Clients()[c].lid
      requires forall u | u in Users() && c in Users()[u] :: u == Clients()[c].uid && Once(Users()[u])
      modifies this`clientData, this`clientNodeMap, this`clientUserMap
      ensures ClientShape()
      ensures Clients() == old(Clients()) - {c}
      ensures Nodes() == old(Nodes()) - {old(Clients())[c].lid}
      ensures Users() == DropUser(old(Users()), old(Clients())[c].uid, c)
    {
      var cn := clientData[c];
      ghost var lists, nodes := Users(), Nodes();
      forall u, n | u in clientUserMap && n in clientUserMap[u] ensures Attached(n) {
        var i :| 0 <= i < |clientUserMap[u]| && clientUserMap[u][i] == n;
      }
      clientData := clientData - {c};
      UnlinkClient(cn);
      DropUserLeavesNone(lists, cn.uid, c);
      forall l | l in clientNodeMap ensures Attached(clientNodeMap[l]) {
        assert l in nodes && nodes[l] == clientNodeMap[l].conn;
      }
      forall u, i | u in clientUserMap && 0 <= i < |clientUserMap[u]| ensures Attached(clientUserMap[u][i]) {
        assert clientUserMap[u][i] in clientUserMap[u] && Users()[u][i] == clientUserMap[u][i].conn;
      }
    }

    // The handlers, each one pass of the select loop.

    method ConnectClient(c: Sock, token: string)
      requires ClientShape() && c !in clientData
      modifies this`clientNodeSeed, this`clientData, this`clientNodeMap
      ensures ClientShape()
      ensures Abs() == OnClientConnected(old(Abs()), c, token)
    {
      AddClientNode(c, token);
    }

    method DisconnectClient(c: Sock)
      requires ClientShape() && NodesPoint(Abs()) && UsersExact(Abs())
      modifies this`clientData, this`clientNodeMap, this`clientUserMap
      ensures ClientShape()
      ensures Abs() == OnClientDisconnected(old(Abs()), c)
      ensures Clients() == old(Clients()) - {c}
    {
      if c in clientData {
        DropClientNode(c);
      }
    }

    /** Sets the client's uid if the password is the account's. */
    method CheckAccount(client: ClientNode, account: string, password: string) returns (ret: int)
      modifies client`uid
      ensures ret == VerifyCode(accounts, account, password).0
      ensures client.uid == match VerifyCode(accounts, account, password).1
                            case Some(row) => row.uid
                            case None => old(client.uid)
    {
      ret := 0;
      if !Exists(accounts, HasAccount(account)) {
        ret := 1;
      }
      var info := AccountByName(accounts, account);
      if info.None? {
        ret := 1;
      } else {
        assert HasAccount(account)(info.value);
        if password != info.value.password {
          ret := 2;
        } else {
          client.uid := info.value.uid;
        }
      }
    }

    /** Enters a client that has just been given its uid in the uid's list. */
    method ListClient(user: ClientNode)
      requires ClientShape() && Attached(user)
      modifies this`clientUserMap
      ensures ClientShape()
      ensures Users() == AddUser(old(Users()), user.uid, user.conn)
    {
      ghost var before := clientUserMap;
      AddClientToUserMap(user);
      ghost var list := if user.uid in before then before[user.uid] else [];
      assert Conns(list + [user]) == Conns(list) + [user.conn];
    }

    method CheckClient(user: ClientNode, account: string, password: string) returns (ret: int)
      requires ClientShape() && Attached(user)
      modifies user`uid
      ensures user.conn in old(Clients()) && ret == VerifyCode(accounts, account, password).0
      ensures user.uid == match VerifyCode(accounts, account, password).1
                          case Some(row) => row.uid
                          case None => old(user.uid)
      ensures Clients() == old(Clients())[user.conn := old(Clients())[user.conn].(uid := user.uid)]
    {
      ret := CheckAccount(user, account, password);
    }

    method VerifyClient(user: ClientNode, account: string, password: string) returns (ret: int)
      requires ClientShape() && Attached(user)
      modifies this`clientUserMap, user`uid
      ensures ClientShape() && user.conn in old(Clients())
      ensures ret == VerifyCode(accounts, account, password).0
      ensures match VerifyCode(accounts, account, password).1
              case None => Clients() == old(Clients()) && Users() == old(Users())
              case Some(row) => Clients() == old(Clients())[user.conn := old(Clients())[user.conn].(uid := row.uid)]
                                && Users() == AddUser(old(Users()), row.uid, user.conn)
    {
      ghost var clients := Clients();
      ret := CheckClient(user, account, password);
      if ret != 0 {
        assert clients[user.conn := clients[user.conn].(uid := user.uid)] == clients;
        return;
      }
      ListClient(user);
    }

    /** The answer is none for packets that are not a first verification. */
    method VerifyAccountReq(c: Sock, account: string, password: string) returns (answer: Option<int>)
      requires ClientShape()
      modifies this`clientUserMap, clientData.Values
      ensures ClientShape()
      ensures Abs() == OnVerifyAccount(old(Abs()), c, account, password)
      ensures answer == if c in old(Clients()) && old(Clients())[c].uid == 0
                        then Some(VerifyCode(accounts, account, password).0) else None
    {
      answer := None;
      if c in clientData && clientData[c].uid == 0 {
        var ret := VerifyClient(clientData[c], account, password);
        answer := Some(ret);
      }
    }

    /** The first row of a presence query without an order: any of the player's rows. */
    method FirstOnlineRow(uid: nat) returns (prev: Option<OnlineRow>)
      ensures Selects(online, OfUid(uid), prev)
    {
      var hits := Where(online, OfUid(uid));
      if |hits| == 0 {
        return None;
      }
      var i :| 0 <= i < |hits|;
      return Some(hits[i]);
    }

    method AnswerLogin(client: ClientNode, save: SaveOutcome) returns (reply: LoginReply, prev: Option<OnlineRow>)
      requires Attached(client) && ServerShape() && RegistryExact(Abs())
      ensures reply == ReplyToLogin(Abs(), client.conn, prev, save)
      ensures Selects(online, OfUid(client.uid), prev)
      ensures reply.Admitted? ==> reply.server in serverData && serverData[reply.server].serverId == client.gsServerId
    {
      prev := FirstOnlineRow(client.uid);
      if client.uid == 0 {
        return NotVerified, prev;
      }
      if client.gsServerId == 0 {
        return QuickMessage(QM_NO_GS_AVAILABLE, 0), prev;
      }
      var prevServerId := if prev.Some? then prev.value.sid else 0;
      if prevServerId != 0 {
        if prevServerId != client.gsServerId {
          return QuickMessage(QM_RELOGIN, Int32(prevServerId)), prev;
        }
      }
      if client.gsServerId !in serverNodeMap {
        return QuickMessage(QM_NO_GS_AVAILABLE, 0), prev;
      }
      var gs := serverNodeMap[client.gsServerId];
      assert Registry()[client.gsServerId] == gs.conn && Servers()[gs.conn] == serverData[gs.conn].Value();
      match save
      case NoFile => return QuickMessage(QM_HUM_SAVE_NOT_EXIST, 0), prev;
      case NoRole => return QuickMessage(QM_HUM_DATA_NOT_EXIST, 0), prev;
      case Unreadable => return QuickMessage(QM_SAVE_NOT_VALID, 0), prev;
      case Loaded => return Admitted(gs.conn), prev;
    }

    method AddOnlinePlayer(uid: nat, serverId: int, lid: int, written: bool)
      modifies this`online
      ensures online == if written then old(online) + [OnlineRow(uid, serverId, lid)] else old(online)
    {
      if written {
        online := online + [OnlineRow(uid, serverId, lid)];
      }
    }

    /** The row is added only at the end of an admission, and a failing insert is only logged. */
    method LoginGameReq(c: Sock, save: SaveOutcome, written: bool) returns (reply: LoginReply, prev: Option<OnlineRow>)
      requires ClientShape() && ServerShape() && RegistryExact(Abs())
      modifies this`online
      ensures Abs() == OnLoginGame(old(Abs()), c, prev, save, written)
      ensures reply == ReplyToLogin(old(Abs()), c, prev, save)
      ensures reply.Admitted? ==> c in clientData && reply.server in serverData
                                  && serverData[reply.server].serverId == clientData[c].gsServerId
      ensures c in Clients() ==> Selects(old(online), OfUid(Clients()[c].uid), prev)
    {
      if c in clientData {
        reply, prev := LoginClient(clientData[c], save, written);
      } else {
        reply, prev := NotVerified, None;
      }
    }

    method LoginClient(client: ClientNode, save: SaveOutcome, written: bool)
      returns (reply: LoginReply, prev: Option<OnlineRow>)
      requires ClientShape() && Attached(client) && ServerShape() && RegistryExact(Abs())
      modifies this`online
      ensures Abs() == OnLoginGame(old(Abs()), client.conn, prev, save, written)
      ensures reply == ReplyToLogin(old(Abs()), client.conn, prev, save)
      ensures reply.Admitted? ==> reply.server in serverData && serverData[reply.server].serverId == client.gsServerId
      ensures Selects(old(online), OfUid(client.uid), prev)
    {
      ghost var s := Abs();
      assert client.conn in s.clients && s.clients[client.conn] == client.Value();
      reply, prev := AnswerLogin(client, save);
      if reply.Admitted? {
        AddOnlinePlayer(client.uid, client.gsServerId, client.clientConnId, written);
      }
      assert Abs() == s.(online := online);
    }

    method ConnectServer(g: Sock)
      requires ServerShape() && g !in serverData
      modifies this`serverNodeSeed, this`serverData
      ensures ServerShape()
      ensures Abs() == OnServerConnected(old(Abs()), g)
    {
      var sn := new ServerNode(g, serverNodeSeed);
      serverNodeSeed := serverNodeSeed + 1;
      serverData := serverData[g := sn];
      assert Servers() == old(Servers())[g := sn.Value()];
    }

    method DropServerNode(g: Sock)
      requires ServerShape() && g in serverData
      requires forall k | k in Registry() && Registry()[k] == g :: k == Servers()[g].id
      modifies this`serverData, this`serverNodeMap
      ensures ServerShape() && Servers() == old(Servers()) - {g}
      ensures Registry() == old(Registry()) - {old(Servers())[g].id}
    {
      var sn := serverData[g];
      ghost var registry := Registry();
      serverData := serverData - {g};
      ServerConnsWithout(serverNodeMap, sn.serverId);
      serverNodeMap := serverNodeMap - {sn.serverId};
      forall k | k in serverNodeMap ensures serverNodeMap[k].conn != g {
        assert k in registry && registry[k] == serverNodeMap[k].conn;
      }
    }

    method DropRowsOf(id: int, deleted: bool)
      modifies this`online
      ensures online == if id != 0 && deleted then Where(old(online), NotOnServer(id)) else old(online)
    {
      if id != 0 {
        if deleted {
          online := Where(online, NotOnServer(id));
        }
      }
    }

    method LoseServer(g: Sock, deleted: bool)
      requires ServerShape() && RegistryExact(Abs()) && g in serverData
      modifies this`serverData, this`serverNodeMap, this`online
      ensures ServerShape() && Servers() == old(Servers()) - {g}
      ensures var id := old(Servers())[g].id;
              && Registry() == old(Registry()) - {id}
              && online == if id != 0 && deleted then Where(old(online), NotOnServer(id)) else old(online)
    {
      var id := serverData[g].serverId;
      RegisteredOnce(Abs(), g);
      DropServerNode(g);
      DropRowsOf(id, deleted);
    }

    /** Whatever id the connection has, its registry entry goes; its rows go if it had registered
        and the delete succeeds. */
    method DisconnectServer(g: Sock, deleted: bool)
      requires ServerShape() && RegistryExact(Abs())
      modifies this`serverData, this`serverNodeMap, this`online
      ensures ServerShape()
      ensures Abs() == OnServerDisconnected(old(Abs()), g, deleted)
    {
      if g in serverData {
        LoseServer(g, deleted);
      }
    }

    /** Gives the node the identity the request states. */
    method NameNode(user: ServerNode, id: int, name: string, address: string)
      requires ServerShape() && user.conn in serverData && serverData[user.conn] == user
      modifies user
      ensures user.serverId == id && user.conn in old(Servers())
      ensures Servers() == old(Servers())[user.conn := Server(old(Servers())[user.conn].connId, id, name, address)]
    {
      user.exposeAddress := address;
      user.serverId := id;
      user.serverName := name;
    }

    method ListServer(user: ServerNode)
      requires ServerShape() && user.conn in serverData && serverData[user.conn] == user
      modifies this`serverNodeMap
      ensures ServerShape() && Registry() == old(Registry())[user.serverId := user.conn]
    {
      ServerConnsUpdate(serverNodeMap, user.serverId, user);
      serverNodeMap := serverNodeMap[user.serverId := user];
    }

    /** The answer is whether this request registers the connection; a refused one is closed. */
    method RegisterServerReq(g: Sock, id: int, name: string, address: string) returns (accepted: bool)
      requires ServerShape()
      modifies this`serverNodeMap, serverData.Values
      ensures ServerShape()
      ensures Abs() == OnRegisterServer(old(Abs()), g, id, name, address)
      ensures accepted <==> g in old(Servers()) && old(Servers())[g].id == 0 && id != 0 && id !in old(Registry())
    {
      accepted := false;
      if g in serverData && serverData[g].serverId == 0 {
        if id == 0 {
          return;
        }
        if id in serverNodeMap {
          return;
        }
        NameNode(serverData[g], id, name, address);
        ListServer(serverData[g]);
        accepted := true;
      }
    }

    method BindClient(client: ClientNode, token: string, serverId: int, gid: int, code: int)
      requires ClientShape() && Attached(client)
      modifies client
      ensures ClientShape() && client.conn in old(Clients())
      ensures var cl := old(Clients())[client.conn];
              Clients() == if cl.uid != 0 && token == cl.token && cl.gs == 0
                           then old(Clients())[client.conn := cl.(gs := serverId, gid := gid, code := code)]
                           else old(Clients())
    {
      if client.uid == 0 {
        return;
      }
      if token == client.accessToken {
        if client.gsServerId != 0 {
          return;
        }
        client.gsConnId := gid;
        client.connCode := code;
        client.gsServerId := serverId;
      }
    }

    method UserVerifyReq(g: Sock, lid: int, token: string, gid: int, code: int)
      requires ClientShape()
      modifies clientData.Values
      ensures ClientShape()
      ensures Abs() == OnUserVerify(old(Abs()), g, lid, token, gid, code)
    {
      if g in serverData && serverData[g].serverId != 0 {
        if lid in clientNodeMap {
          assert Attached(clientNodeMap[lid]);
          BindClient(clientNodeMap[lid], token, serverData[g].serverId, gid, code);
        }
      }
    }

    method PlayerDisconnectedNtf(g: Sock, player: int, lid: int, deleted: bool)
      modifies this`online
      ensures Abs() == OnPlayerDisconnected(old(Abs()), g, player, lid, deleted)
    {
      if g in serverData && serverData[g].serverId != 0 {
        if deleted {
          online := Where(online, NotSession(UInt32(player), serverData[g].serverId, lid));
        }
      }
    }

    method EventFromClient(e: Event) returns (ghost done: Event)
      requires ClientShape() && ServerShape() && NodesPoint(Abs()) && UsersExact(Abs()) && RegistryExact(Abs())
      requires e.ClientConnected? || e.ClientDisconnected? || e.VerifyAccount? || e.LoginGame?
      requires e.ClientConnected? ==> e.c !in clientData
      modifies this`clientNodeSeed, this`clientData, this`clientNodeMap, this`clientUserMap, this`online, clientData.Values
      ensures ClientShape() && ServerShape()
      ensures Abs() == Step(old(Abs()), done) && Enabled(old(Abs()), done)
      ensures done == if e.LoginGame? && done.LoginGame? then e.(prev := done.prev) else e
    {
      done := e;
      match e {
        case ClientConnected(c, token) =>
          ConnectClient(c, token);
        case ClientDisconnected(c) =>
          DisconnectClient(c);
        case VerifyAccount(c, account, password) =>
          var _ := VerifyAccountReq(c, account, password);
        case LoginGame(c, _, save, written) =>
          var _, prev := LoginGameReq(c, save, written);
          done := LoginGame(c, prev, save, written);
      }
    }

    method EventFromServer(e: Event)
      requires ClientShape() && ServerShape() && RegistryExact(Abs())
      requires e.ServerConnected? || e.ServerDisconnected? || e.RegisterServer? || e.UserVerify? || e.PlayerDisconnected?
      requires e.ServerConnected? ==> e.g !in serverData
      modifies this`serverNodeSeed, this`serverData, this`serverNodeMap, this`online, clientData.Values, serverData.Values
      ensures ClientShape() && ServerShape()
      ensures Abs() == Step(old(Abs()), e) && Enabled(old(Abs()), e)
    {
      match e {
        case ServerConnected(g) =>
          ConnectServer(g);
        case ServerDisconnected(g, deleted) =>
          DisconnectServer(g, deleted);
        case RegisterServer(g, id, name, address) =>
          var _ := RegisterServerReq(g, id, name, address);
        case UserVerify(g, lid, token, gid, code) =>
          UserVerifyReq(g, lid, token, gid, code);
        case PlayerDisconnected(g, player, lid, deleted) =>
          PlayerDisconnectedNtf(g, player, lid, deleted);
      }
    }

    // The select loop: one event at a time, each recorded as one step of the run.

    /** done is the event with the row the presence query happened to return, if it was a login. */
    method ProcessEventFromClient(e: Event) returns (ghost done: Event)
      requires Valid()
      requires e.ClientConnected? || e.ClientDisconnected? || e.VerifyAccount? || e.LoginGame?
      requires e.ClientConnected? ==> e.c !in clientData
      modifies this, clientData.Values
      ensures Valid() && es == old(es) + [done] && ss == old(ss) + [Abs()]
      ensures done == if e.LoginGame? && done.LoginGame? then e.(prev := done.prev) else e
    {
      RunInv(es, ss, |es|);
      done := EventFromClient(e);
      Record(done);
    }

    method ProcessEventFromServer(e: Event)
      requires Valid()
      requires e.ServerConnected? || e.ServerDisconnected? || e.RegisterServer? || e.UserVerify? || e.PlayerDisconnected?
      requires e.ServerConnected? ==> e.g !in serverData
      modifies this, clientData.Values, serverData.Values
      ensures Valid() && es == old(es) + [e] && ss == old(ss) + [Abs()]
    {
      RunInv(es, ss, |es|);
      EventFromServer(e);
      Record(e);
    }

    /** The account table changes between events, by the code that owns it. */
    method AccountsChange(table: seq<AccountRow>)
      requires Valid() && AccountKeys(table)
      modifies this
      ensures Valid() && es == old(es) + [AccountsChanged(table)] && ss == old(ss) + [Abs()]
    {
      accounts := table;
      Record(AccountsChanged(table));
    }

    /** Whatever the server has been through, the presence table never shows a player on two servers
        and the registry and the lists are exact. The two ways to look a client up agree if no
        connect was issued the LID of a live client, as in the first turn of the counter; every row
        is of a registered server if no server disconnect left rows behind. */
    lemma AlwaysSafe(uid: nat, lid: int)
      requires Valid()
      ensures SingleServer(Abs()) && RegistryExact(Abs()) && UsersExact(Abs())
      ensures FirstTurn(Abs()) ==> forall i | 0 <= i < |es| :: !Takes(ss[i], es[i])
      ensures uid != 0 && (forall i | 0 <= i < |es| :: !Takes(ss[i], es[i])) ==>
                ScanUsers(Abs(), uid, lid) == NodeOfUid(Abs(), uid, lid)
      ensures (forall i | 0 <= i < |es| :: !LeavesRows(ss[i], es[i])) ==> PresenceBacked(Abs())
    {
      RunInv(es, ss, |es|);
      if FirstTurn(Abs()) { FirstTurnTakesNothing(es, ss, |es|); }
      if uid != 0 && forall i | 0 <= i < |es| :: !Takes(ss[i], es[i]) { IndexesAgree(es, ss, |es|, uid, lid); }
      if forall i | 0 <= i < |es| :: !LeavesRows(ss[i], es[i]) { RunPresenceBacked(es, ss, |es|); }
    }
  }
}
