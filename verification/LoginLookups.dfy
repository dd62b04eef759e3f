/** The two ways of looking a client up by its LID, and exactly how long they agree. */
module LoginLookups {
  import opened GoInts
  import opened Tables
  import opened LoginProtocol
  import opened LoginInvariants
  import opened LoginHistory

  /** The client found by scanning the list of a uid for a LID. */
  function ScanUsers(s: State, uid: nat, lid: int): Option<Sock>
  {
    if uid in s.users then ScanList(s, s.users[uid], lid) else None
  }

  function ScanList(s: State, cs: seq<Sock>, lid: int): Option<Sock>
  {
    if cs == [] then None
    else if cs[0] in s.clients && s.clients[cs[0]].lid == lid then Some(cs[0])
    else ScanList(s, cs[1..], lid)
  }

  /** The client the node map has under a LID, if it is the uid's. */
  function NodeOfUid(s: State, uid: nat, lid: int): Option<Sock>
  {
    if lid in s.nodes && s.nodes[lid] in s.clients && s.clients[s.nodes[lid]].uid == uid then Some(s.nodes[lid])
    else None
  }

  lemma {:induction false} ScanFinds(s: State, cs: seq<Sock>, lid: int)
    ensures match ScanList(s, cs, lid)
            case Some(c) => c in cs && c in s.clients && s.clients[c].lid == lid
            case None => forall c | c in cs && c in s.clients :: s.clients[c].lid != lid
  {
    if cs != [] {
      ScanFinds(s, cs[1..], lid);
    }
  }

  /** Every live client is in the node map under its LID. */
  ghost predicate Findable(s: State)
  {
    forall c | c in s.clients :: s.clients[c].lid in s.nodes && s.nodes[s.clients[c].lid] == c
  }

  /** The event is a connect that is issued the LID of a live client. */
  ghost predicate Takes(s: State, e: Event)
  {
    e.ClientConnected? && exists d :: d in s.clients && s.clients[d].lid == Int32(s.seed)
  }

  /** An event keeps all live clients findable exactly if it does not take the LID of one. */
  lemma {:induction false} FindableAfter(s: State, e: Event)
    requires Inv(s) && Findable(s) && Enabled(s, e)
    ensures Findable(Step(s, e)) <==> !Takes(s, e)
  {
    match e
    case ClientConnected(c, token) => ConnectKeepsNodes(s, c, token);
    case _ =>
  }

  lemma {:induction false} FindableAt(es: seq<Event>, ss: seq<State>, i: nat)
    requires IsRun(es, ss) && i < |es| && Findable(ss[i])
    ensures Findable(ss[i + 1]) <==> !Takes(ss[i], es[i])
  {
    RunInv(es, ss, i);
    assert StepAt(es, ss, i);
    FindableAfter(ss[i], es[i]);
  }

  lemma {:induction false} RunFindable(es: seq<Event>, ss: seq<State>, n: nat)
    requires IsRun(es, ss) && n < |ss| && forall i | 0 <= i < n :: !Takes(ss[i], es[i])
    ensures Findable(ss[n])
  {
    if n > 0 {
      RunFindable(es, ss, n - 1);
      FindableAt(es, ss, n - 1);
    }
  }

  /** All live clients are findable throughout a run exactly if no connect of it takes the LID of a live client. */
  lemma {:induction false} FindableExactly(es: seq<Event>, ss: seq<State>, n: nat)
    requires IsRun(es, ss) && n < |ss|
    ensures (forall i | 0 <= i <= n :: Findable(ss[i])) <==> forall i | 0 <= i < n :: !Takes(ss[i], es[i])
  {
    if forall i | 0 <= i < n :: !Takes(ss[i], es[i]) {
      forall i | 0 <= i <= n ensures Findable(ss[i]) {
        RunFindable(es, ss, i);
      }
    } else if forall i | 0 <= i <= n :: Findable(ss[i]) {
      forall i | 0 <= i < n ensures !Takes(ss[i], es[i]) {
        assert Findable(ss[i]) && Findable(ss[i + 1]);
        FindableAt(es, ss, i);
      }
    }
  }

  /** Where every client is findable, scanning the list of a uid for a LID finds the client the node
      map has under that LID if it is that uid's, and nothing otherwise. */
  lemma FindableAgree(s: State, uid: nat, lid: int)
    requires Inv(s) && Findable(s) && uid != 0
    ensures ScanUsers(s, uid, lid) == NodeOfUid(s, uid, lid)
  {
    if uid in s.users {
      ScanFinds(s, s.users[uid], lid);
    }
  }

  /** So the two lookups agree in every state reached without a connect taking a live client's LID,
      however many clients have connected. */
  lemma {:induction false} IndexesAgree(es: seq<Event>, ss: seq<State>, n: nat, uid: nat, lid: int)
    requires IsRun(es, ss) && n < |ss| && uid != 0
    requires forall i | 0 <= i < n :: !Takes(ss[i], es[i])
    ensures ScanUsers(ss[n], uid, lid) == NodeOfUid(ss[n], uid, lid)
  {
    RunInv(es, ss, n);
    RunFindable(es, ss, n);
    FindableAgree(ss[n], uid, lid);
  }

  /** Right after a connect they agree on everybody exactly if the LID it was issued is not that of a
      verified client still connected. */
  lemma {:induction false} ConnectKeepsAgreement(s: State, c: Sock, token: string)
    requires Inv(s) && Findable(s) && c !in s.clients
    ensures var t := OnClientConnected(s, c, token);
            (forall uid: nat, lid | uid != 0 :: ScanUsers(t, uid, lid) == NodeOfUid(t, uid, lid))
            <==> !exists d :: d in s.clients && s.clients[d].uid != 0 && s.clients[d].lid == Int32(s.seed)
  {
    var t := OnClientConnected(s, c, token);
    ConnectKeepsInv(s, c, token);
    if d :| d in s.clients && s.clients[d].uid != 0 && s.clients[d].lid == Int32(s.seed) {
      var uid := s.clients[d].uid;
      ScanFinds(t, t.users[uid], Int32(s.seed));
      assert ScanUsers(t, uid, Int32(s.seed)) != NodeOfUid(t, uid, Int32(s.seed));
    } else {
      forall uid: nat, lid | uid != 0 ensures ScanUsers(t, uid, lid) == NodeOfUid(t, uid, lid) {
        if uid in t.users {
          ScanFinds(t, t.users[uid], lid);
        }
      }
    }
  }

  /** No connect of the first turn takes a live client's LID. */
  lemma {:induction false} FirstTurnTakesNothing(es: seq<Event>, ss: seq<State>, n: nat)
    requires IsRun(es, ss) && n < |ss| && FirstTurn(ss[n])
    ensures forall i | 0 <= i < n :: !Takes(ss[i], es[i])
  {
    forall i | 0 <= i < n ensures !Takes(ss[i], es[i]) {
      SeedGrows(es, ss, i + 1, n);
      SeedGrows(es, ss, i, i + 1);
      RunLids(es, ss, i);
      RunInv(es, ss, i);
      assert StepAt(es, ss, i);
      if es[i].ClientConnected? {
        assert Ordinal(Int32(ss[i].seed)) == ss[i].seed;
      }
    }
  }
}
