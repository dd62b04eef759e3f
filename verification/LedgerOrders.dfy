/** Whether order ids stay unique when credits interleave. */
module LedgerOrders {
  import opened Tables
  import opened Ledger
  import opened LedgerInterleaving

  /** The move records an order that the history already has. */
  predicate RecordsUsed(s: State, m: Move)
  {
    && m.Go? && m.ok && m.i < |s.threads| && s.threads[m.i].Crediter? && s.threads[m.i].crediting.AtRecord?
    && Exists(s.b.history, HasOrder(s.threads[m.i].order))
  }

  /** A duplicate stays a duplicate. */
  lemma DuplicatesStay(h: seq<HistoryRow>, more: seq<HistoryRow>)
    requires DistinctBy(h + more, OrderOf())
    ensures DistinctBy(h, OrderOf())
  {
    forall i, j | 0 <= i < j < |h| ensures OrderOf()(h[i]) != OrderOf()(h[j]) {
      assert OrderOf()((h + more)[i]) != OrderOf()((h + more)[j]);
    }
  }

  /** After a move order ids are unique exactly if they were and the move did not record a used one. */
  lemma {:induction false} OrdersAfter(s: State, m: Move)
    ensures OrdersUnique(Next(s, m).b) <==> OrdersUnique(s.b) && !RecordsUsed(s, m)
  {
    if m.Go? && m.i < |s.threads| && s.threads[m.i].Crediter? && s.threads[m.i].crediting.AtRecord? && m.ok {
      var t := s.threads[m.i];
      var row := HistoryRow(t.uid, t.money, m.now, t.order);
      assert Next(s, m).b == s.b.(history := s.b.history + [row]);
      if OrdersUnique(s.b) {
        OrderRecorded(s.b, row);
      } else if OrdersUnique(Next(s, m).b) {
        DuplicatesStay(s.b.history, [row]);
      }
    } else {
      assert Next(s, m).b.history == s.b.history;
    }
  }

  /** Over a run order ids stay unique exactly if no step records an order the history already has. */
  lemma {:induction false} RunOrdersUniqueExactly(ms: seq<Move>, ss: seq<State>, n: nat)
    requires IsRun(ms, ss) && n < |ss|
    ensures OrdersUnique(ss[n].b) <==> forall i | 0 <= i < n :: !RecordsUsed(ss[i], ms[i])
  {
    if n > 0 {
      RunOrdersUniqueExactly(ms, ss, n - 1);
      assert StepAt(ms, ss, n - 1);
      OrdersAfter(ss[n - 1], ms[n - 1]);
    }
  }

  // What leads to such a step, and what rules it out.

  predicate AboutToRecord(t: Thread, u: Thread)
  {
    t.Crediter? && u.Crediter? && t.crediting.AtRecord? && u.crediting.AtRecord? && t.order == u.order
  }

  /** No two credits with the same order id are between their check and their record. */
  ghost predicate OrdersApart(s: State)
  {
    forall i, j | 0 <= i < j < |s.threads| :: !AboutToRecord(s.threads[i], s.threads[j])
  }

  /** Every credit that passed its check still has an unused order id. */
  ghost predicate ChecksHold(s: State)
  {
    forall t | t in s.threads && t.Crediter? && t.crediting.AtRecord? :: !Exists(s.b.history, HasOrder(t.order))
  }

  /** In any state in which two such credits meet, two taken inserts are enough to record one order
      twice, whatever the history held before. */
  lemma {:induction false} MeetingDoubles(s: State, i: nat, j: nat, now: int, later: int)
    requires i < |s.threads| && j < |s.threads| && i != j && AboutToRecord(s.threads[i], s.threads[j])
    ensures RecordsUsed(Next(s, Go(i, true, now)), Go(j, true, later))
    ensures !OrdersUnique(Next(Next(s, Go(i, true, now)), Go(j, true, later)).b)
  {
    var t := s.threads[i];
    var u := Next(s, Go(i, true, now));
    var row := HistoryRow(t.uid, t.money, now, t.order);
    assert u.b.history == s.b.history + [row] && row in u.b.history && HasOrder(t.order)(row);
    OrdersAfter(u, Go(j, true, later));
  }

  lemma NextRecord(s: State, i: nat, now: int)
    requires ChecksHold(s) && OrdersApart(s) && i < |s.threads| && s.threads[i].Crediter? && s.threads[i].crediting.AtRecord?
    ensures ChecksHold(Next(s, Go(i, true, now)))
  {
    var t, u := s.threads[i], Next(s, Go(i, true, now));
    var row := HistoryRow(t.uid, t.money, now, t.order);
    assert u.b.history == s.b.history + [row];
    forall x | x in u.threads && x.Crediter? && x.crediting.AtRecord? ensures !Exists(u.b.history, HasOrder(x.order)) {
      var j :| 0 <= j < |u.threads| && u.threads[j] == x;
      assert s.threads[j] == x && x in s.threads;
      assert i < j ==> !AboutToRecord(s.threads[i], s.threads[j]);
      assert j < i ==> !AboutToRecord(s.threads[j], s.threads[i]);
      assert !HasOrder(x.order)(row);
    }
  }

  lemma {:induction false} NextKeepsChecks(s: State, m: Move)
    requires ChecksHold(s) && OrdersApart(s) && Enabled(s, m)
    ensures ChecksHold(Next(s, m)) && !RecordsUsed(s, m)
  {
    match m
    case Start(t) =>
    case Go(i, ok, now) =>
      var t := s.threads[i];
      assert t in s.threads;
      if t.Crediter? && t.crediting.AtRecord? && ok {
        NextRecord(s, i, now);
      } else {
        var u := Next(s, m);
        assert u.b.history == s.b.history;
        forall x | x in u.threads && x.Crediter? && x.crediting.AtRecord? ensures !Exists(u.b.history, HasOrder(x.order)) {
          var j :| 0 <= j < |u.threads| && u.threads[j] == x;
          if j != i { assert s.threads[j] == x && x in s.threads; }
        }
      }
  }

  /** If no two credits of one order id are ever between check and record together, order ids stay unique. */
  lemma {:induction false} RunOrdersUnique(ms: seq<Move>, ss: seq<State>, n: nat)
    requires IsRun(ms, ss) && n < |ss|
    requires forall i | 0 <= i < n :: OrdersApart(ss[i])
    ensures OrdersUnique(ss[n].b) && ChecksHold(ss[n])
  {
    if n > 0 {
      RunOrdersUnique(ms, ss, n - 1);
      assert StepAt(ms, ss, n - 1);
      NextKeepsChecks(ss[n - 1], ms[n - 1]);
      OrdersAfter(ss[n - 1], ms[n - 1]);
    }
  }
}
