/** Exactly how long a LID identifies a client and the presence rows that carry it. */
module LoginLids {
  import opened GoInts
  import opened LoginProtocol
  import opened LoginInvariants
  import opened LoginHistory
  import opened LoginLookups

  /** The event is a connect that is issued this LID. */
  predicate Issues(s: State, e: Event, lid: int)
  {
    e.ClientConnected? && Int32(s.seed) == lid
  }

  /** In one state: each LID leads to its client, and all rows with a LID carry the identity of the
      client that has it, or of one and the same client that had it. */
  ghost predicate LidsAgree(s: State)
  {
    && Findable(s)
    && (forall c, r | c in s.clients && r in s.online && s.clients[c].lid == r.lid ::
          s.clients[c].uid == r.uid && s.clients[c].gs == r.sid)
    && (forall r, q | r in s.online && q in s.online && r.lid == q.lid :: r.uid == q.uid && r.sid == q.sid)
  }

  /** The event is a connect that is issued the LID of a live client or of a presence row. */
  ghost predicate Reuses(s: State, e: Event)
  {
    Takes(s, e) || exists r :: r in s.online && Issues(s, e, r.lid)
  }

  lemma {:induction false} LoginKeepsAgree(s: State, e: Event)
    requires Inv(s) && LidsAgree(s) && e.LoginGame?
    ensures LidsAgree(Step(s, e))
  {
    var t := Step(s, e);
    if t != s {
      var row := OnlineRow(s.clients[e.c].uid, s.clients[e.c].gs, s.clients[e.c].lid);
      assert t.online == s.online + [row];
      forall d | d in s.clients && s.clients[d].lid == row.lid ensures d == e.c {
        assert s.nodes[row.lid] == d;
      }
    }
  }

  lemma {:induction false} BindKeepsAgree(s: State, e: Event)
    requires Inv(s) && LidsAgree(s) && e.UserVerify?
    ensures LidsAgree(Step(s, e))
  {
    if Binds(s, e.g, e.lid, e.token) {
      assert forall r | r in s.online :: r.lid != e.lid;
    }
  }

  lemma {:induction false} ConnectKeepsAgree(s: State, e: Event)
    requires Inv(s) && LidsAgree(s) && Enabled(s, e) && e.ClientConnected?
    ensures LidsAgree(Step(s, e)) <==> !Reuses(s, e)
  {
    FindableAfter(s, e);
    var t := Step(s, e);
    if r :| r in s.online && Issues(s, e, r.lid) {
      assert t.clients[e.c].lid == r.lid && t.clients[e.c].uid == 0 != r.uid && r in t.online;
    }
  }

  /** An event keeps LIDs identifying clients and rows exactly if it does not reuse one. */
  lemma {:induction false} LidsAgreeAfter(s: State, e: Event)
    requires Inv(s) && LidsAgree(s) && Enabled(s, e)
    ensures LidsAgree(Step(s, e)) <==> !Reuses(s, e)
  {
    FindableAfter(s, e);
    match e
    case ClientConnected(_, _) => ConnectKeepsAgree(s, e);
    case LoginGame(_, _, _, _) => LoginKeepsAgree(s, e);
    case UserVerify(_, _, _, _, _) => BindKeepsAgree(s, e);
    case VerifyAccount(_, _, _) => assert forall r | r in s.online :: r.uid != 0;
    case _ =>
  }

  lemma {:induction false} LidsAgreeAt(es: seq<Event>, ss: seq<State>, i: nat)
    requires IsRun(es, ss) && i < |es| && LidsAgree(ss[i])
    ensures LidsAgree(ss[i + 1]) <==> !Reuses(ss[i], es[i])
  {
    RunInv(es, ss, i);
    assert StepAt(es, ss, i);
    LidsAgreeAfter(ss[i], es[i]);
  }

  lemma {:induction false} RunLidsAgree(es: seq<Event>, ss: seq<State>, n: nat)
    requires IsRun(es, ss) && n < |ss| && forall i | 0 <= i < n :: !Reuses(ss[i], es[i])
    ensures LidsAgree(ss[n])
  {
    if n > 0 {
      RunLidsAgree(es, ss, n - 1);
      LidsAgreeAt(es, ss, n - 1);
    }
  }

  /** LIDs identify clients and rows in all states of a run exactly if no connect of it reuses one. */
  lemma {:induction false} LidsAgreeExactly(es: seq<Event>, ss: seq<State>, n: nat)
    requires IsRun(es, ss) && n < |ss|
    ensures (forall i | 0 <= i <= n :: LidsAgree(ss[i])) <==> forall i | 0 <= i < n :: !Reuses(ss[i], es[i])
  {
    if forall i | 0 <= i < n :: !Reuses(ss[i], es[i]) {
      forall i | 0 <= i <= n ensures LidsAgree(ss[i]) {
        RunLidsAgree(es, ss, i);
      }
    } else if forall i | 0 <= i <= n :: LidsAgree(ss[i]) {
      forall i | 0 <= i < n ensures !Reuses(ss[i], es[i]) {
        assert LidsAgree(ss[i]) && LidsAgree(ss[i + 1]);
        LidsAgreeAt(es, ss, i);
      }
    }
  }

  /** No connect of the first turn reuses a LID. */
  lemma {:induction false} FirstTurnReusesNothing(es: seq<Event>, ss: seq<State>, n: nat)
    requires IsRun(es, ss) && n < |ss| && FirstTurn(ss[n])
    ensures forall i | 0 <= i < n :: !Reuses(ss[i], es[i])
  {
    FirstTurnTakesNothing(es, ss, n);
    forall i | 0 <= i < n ensures !Reuses(ss[i], es[i]) {
      SeedGrows(es, ss, i + 1, n);
      RunInv(es, ss, i);
      assert StepAt(es, ss, i);
      if es[i].ClientConnected? {
        assert Ordinal(Int32(ss[i].seed)) == ss[i].seed;
        RunLids(es, ss, i);
      }
    }
  }

  // What a LID means over time.

  /** Every row and every client with the row's LID has the row's uid and server. */
  ghost predicate Means(s: State, row: OnlineRow)
  {
    && (forall r | r in s.online && r.lid == row.lid :: r.uid == row.uid && r.sid == row.sid)
    && (forall c | c in s.clients && s.clients[c].lid == row.lid ::
          s.clients[c].uid == row.uid && s.clients[c].gs == row.sid)
  }

  /** An event keeps what the LID of a row means exactly if it does not issue the LID again. */
  lemma {:induction false} MeaningAfter(s: State, e: Event, row: OnlineRow)
    requires Enabled(s, e) && row.sid != 0 && row.uid != 0 && Means(s, row)
    ensures Means(Step(s, e), row) <==> !Issues(s, e, row.lid)
  {
    match e
    case ClientConnected(c, token) => assert Step(s, e).clients[c].lid == Int32(s.seed);
    case _ =>
  }

  /** Once a row is shown, its LID keeps the row's uid and server, for every row and every client that
      carries it later and also after its first client is gone, exactly until a connect is issued the
      LID again. */
  lemma {:induction false} MeaningKept(es: seq<Event>, ss: seq<State>, a: nat, b: nat, row: OnlineRow)
    requires IsRun(es, ss) && a <= b < |ss| && row in ss[a].online && LidsAgree(ss[a])
    ensures (forall t | a <= t <= b :: Means(ss[t], row)) <==> forall i | a <= i < b :: !Issues(ss[i], es[i], row.lid)
    decreases b
  {
    if a < b {
      MeaningKept(es, ss, a, b - 1, row);
      RunInv(es, ss, a);
      assert StepAt(es, ss, b - 1);
      if Means(ss[b - 1], row) {
        MeaningAfter(ss[b - 1], es[b - 1], row);
      }
      assert (forall t | a <= t <= b :: Means(ss[t], row)) <==>
             (forall t | a <= t <= b - 1 :: Means(ss[t], row)) && Means(ss[b], row);
      assert (forall i | a <= i < b :: !Issues(ss[i], es[i], row.lid)) <==>
             (forall i | a <= i < b - 1 :: !Issues(ss[i], es[i], row.lid)) && !Issues(ss[b - 1], es[b - 1], row.lid);
    }
  }
}
