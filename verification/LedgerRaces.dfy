/** Interleavings that show the conditions of the spending and order-id results are needed and the
    bound is reached: each lemma builds a run, move by move. */
module LedgerRaces {
  import opened GoInts
  import opened Tables
  import opened Ledger
  import opened LedgerInterleaving
  import opened LedgerSpending

  ghost predicate Ends(ms: seq<Move>, ss: seq<State>, s: State)
  {
    IsRun(ms, ss) && ss[|ms|] == s
  }

  /** One more move. */
  lemma Then(ms: seq<Move>, ss: seq<State>, s: State, m: Move, u: State) returns (ms': seq<Move>, ss': seq<State>)
    requires Ends(ms, ss, s) && Enabled(s, m) && u == Next(s, m)
    ensures Ends(ms', ss', u) && ms' == ms + [m] && ss' == ss + [u]
  {
    ms', ss' := ms + [m], ss + [u];
    forall i: nat | i < |ms'| ensures StepAt(ms', ss', i) {
      if i < |ms| { assert StepAt(ms, ss, i); }
    }
  }

  /** A thread's step that leaves the books alone. */
  lemma ThenReads(ms: seq<Move>, ss: seq<State>, s: State, i: nat, t: Thread) returns (ms': seq<Move>, ss': seq<State>)
    requires Ends(ms, ss, s) && i < |s.threads| && StepThread(s.b, s.threads[i], true, 0) == (s.b, t)
    ensures Ends(ms', ss', s.(threads := s.threads[i := t]))
    ensures ms' == ms + [Go(i, true, 0)] && ss' == ss + [s.(threads := s.threads[i := t])]
  {
    RunInv(ms, ss, |ms|);
    assert forall uid: nat :: HistorySum(s.b, uid) < TWO_31;
    ms', ss' := Then(ms, ss, s, Go(i, true, 0), s.(threads := s.threads[i := t]));
  }

  // The same order credited twice.

  /** Two requests with one order id can both pass the check before either is recorded: for any
      player, amount and order id there is a run that credits the order twice. */
  lemma DoubleCredit(uid: nat, money: int, order: string) returns (ms: seq<Move>, ss: seq<State>)
    requires 0 <= money < TWO_31 / 2
    ensures IsRun(ms, ss) && !OrdersUnique(ss[|ms|].b) && HistorySum(ss[|ms|].b, uid) == 2 * money
  {
    var t := Crediter(uid, money, order, AtCheck);
    var rec := t.(crediting := AtRecord);
    var done := t.(crediting := AtExists);
    var row := HistoryRow(uid, money, 0, order);
    var none := INIT.b;
    var one := none.(history := [row]);
    var two := none.(history := [row, row]);
    ms, ss := [], [INIT];
    ms, ss := Then(ms, ss, INIT, Start(t), State(none, [t]));
    ms, ss := Then(ms, ss, State(none, [t]), Start(t), State(none, [t, t]));
    ms, ss := ThenReads(ms, ss, State(none, [t, t]), 0, rec);
    assert [t, t][0 := rec] == [rec, t];
    ms, ss := ThenReads(ms, ss, State(none, [rec, t]), 1, rec);
    assert [rec, t][1 := rec] == [rec, rec];
    assert one.history == none.history + [row] && two.history == one.history + [row];
    forall u: nat ensures HistorySum(one, u) == (if u == uid then money else 0) && HistorySum(two, u) == if u == uid then 2 * money else 0 {
      AfterRecord(none, row, u);
      AfterRecord(one, row, u);
    }
    ms, ss := Then(ms, ss, State(none, [rec, rec]), Go(0, true, 0), State(one, [done, rec]));
    ms, ss := Then(ms, ss, State(one, [done, rec]), Go(1, true, 0), State(two, [done, done]));
    assert OrderOf()(two.history[0]) == OrderOf()(two.history[1]);
  }

  // A total lowered by overlapping credits.

  /** The player's first credit, run on its own. */
  lemma FirstCredit(uid: nat, money: int, order: string) returns (ms: seq<Move>, ss: seq<State>)
    requires 0 <= money < TWO_31
    ensures Ends(ms, ss, State(Books([DonateRow(uid, money, 0, 0)], [HistoryRow(uid, money, 0, order)], []),
                               [Crediter(uid, money, order, Over)]))
  {
    var t := Crediter(uid, money, order, AtCheck);
    var row := HistoryRow(uid, money, 0, order);
    var recorded := INIT.b.(history := [row]);
    ms, ss := Then([], [INIT], INIT, Start(t), State(INIT.b, [t]));
    ms, ss := ThenReads(ms, ss, State(INIT.b, [t]), 0, t.(crediting := AtRecord));
    assert [t][0 := t.(crediting := AtRecord)] == [t.(crediting := AtRecord)];
    assert recorded.history == INIT.b.history + [row];
    forall u: nat ensures HistorySum(recorded, u) == if u == uid then money else 0 {
      AfterRecord(INIT.b, row, u);
    }
    ms, ss := Then(ms, ss, State(INIT.b, [t.(crediting := AtRecord)]), Go(0, true, 0), State(recorded, [t.(crediting := AtExists)]));
    ms, ss := ThenReads(ms, ss, State(recorded, [t.(crediting := AtExists)]), 0, t.(crediting := AtInsert));
    assert [t.(crediting := AtExists)][0 := t.(crediting := AtInsert)] == [t.(crediting := AtInsert)];
    var total := recorded.(donates := [DonateRow(uid, money, 0, 0)]);
    ColumnExact(money);
    assert recorded.donates + [DonateRow(uid, Column(money), 0, 0)] == total.donates;
    assert forall u: nat :: HistorySum(total, u) == HistorySum(recorded, u);
    ms, ss := Then(ms, ss, State(recorded, [t.(crediting := AtInsert)]), Go(0, true, 0), State(total, [t.(crediting := Over)]));
  }

  /** Thread i, about to check a fresh order, records it. */
  lemma ThenRecords(ms: seq<Move>, ss: seq<State>, s: State, i: nat) returns (ms': seq<Move>, ss': seq<State>)
    requires Ends(ms, ss, s) && i < |s.threads| && s.threads[i].Crediter? && s.threads[i].crediting == AtCheck
    requires !Exists(s.b.history, HasOrder(s.threads[i].order))
    requires forall u: nat :: HistorySum(s.b, u) + s.threads[i].money < TWO_31
    ensures var t := s.threads[i];
            var b := s.b.(history := s.b.history + [HistoryRow(t.uid, t.money, 0, t.order)]);
            && Ends(ms', ss', State(b, s.threads[i := t.(crediting := AtExists)]))
            && HistorySum(b, t.uid) == HistorySum(s.b, t.uid) + t.money
  {
    var t := s.threads[i];
    var row := HistoryRow(t.uid, t.money, 0, t.order);
    var b := s.b.(history := s.b.history + [row]);
    var u := s.(threads := s.threads[i := t.(crediting := AtRecord)]);
    ms', ss' := ThenReads(ms, ss, s, i, t.(crediting := AtRecord));
    RunInv(ms', ss', |ms'|);
    assert u.threads[i] in u.threads && ThreadOk(u.b, t.(crediting := AtRecord));
    forall v: nat ensures HistorySum(b, v) == HistorySum(s.b, v) + if v == t.uid then t.money else 0 {
      AfterRecord(s.b, row, v);
    }
    assert forall v: nat :: HistorySum(b, v) < TWO_31;
    assert u.threads[i := t.(crediting := AtExists)] == s.threads[i := t.(crediting := AtExists)];
    ms', ss' := Then(ms', ss', u, Go(i, true, 0), State(b, s.threads[i := t.(crediting := AtExists)]));
  }

  /** Thread i, whose order is recorded and whose player has a total, goes on until it has summed
      the history and is about to write the sum. */
  lemma ThenSums(ms: seq<Move>, ss: seq<State>, s: State, i: nat, expire: int) returns (ms': seq<Move>, ss': seq<State>)
    requires Ends(ms, ss, s) && i < |s.threads| && s.threads[i].Crediter? && s.threads[i].crediting == AtExists
    requires DonateInfo(s.b, s.threads[i].uid).Some? && DonateInfo(s.b, s.threads[i].uid).value.expire == expire
    ensures var t := s.threads[i];
            Ends(ms', ss', s.(threads := s.threads[i := t.(crediting := AtUpdate(HistorySum(s.b, t.uid), expire))]))
  {
    var t := s.threads[i];
    ms', ss' := ThenReads(ms, ss, s, i, t.(crediting := AtInfo));
    var x := s.(threads := s.threads[i := t.(crediting := AtInfo)]);
    ms', ss' := ThenReads(ms', ss', x, i, t.(crediting := AtSum(expire)));
    var y := x.(threads := x.threads[i := t.(crediting := AtSum(expire))]);
    ms', ss' := ThenReads(ms', ss', y, i, t.(crediting := AtUpdate(HistorySum(s.b, t.uid), expire)));
    assert y.threads[i := t.(crediting := AtUpdate(HistorySum(s.b, t.uid), expire))]
        == s.threads[i := t.(crediting := AtUpdate(HistorySum(s.b, t.uid), expire))];
  }

  lemma ThenCreditsUpToUpdate(ms: seq<Move>, ss: seq<State>, s: State, i: nat, expire: int)
    returns (ms': seq<Move>, ss': seq<State>)
    requires Ends(ms, ss, s) && i < |s.threads| && s.threads[i].Crediter? && s.threads[i].crediting == AtCheck
    requires !Exists(s.b.history, HasOrder(s.threads[i].order))
    requires DonateInfo(s.b, s.threads[i].uid).Some? && DonateInfo(s.b, s.threads[i].uid).value.expire == expire
    requires forall u: nat :: HistorySum(s.b, u) + s.threads[i].money < TWO_31
    ensures var t := s.threads[i];
            var b := s.b.(history := s.b.history + [HistoryRow(t.uid, t.money, 0, t.order)]);
            Ends(ms', ss', State(b, s.threads[i := t.(crediting := AtUpdate(HistorySum(s.b, t.uid) + t.money, expire))]))
  {
    var t := s.threads[i];
    var b := s.b.(history := s.b.history + [HistoryRow(t.uid, t.money, 0, t.order)]);
    var u := State(b, s.threads[i := t.(crediting := AtExists)]);
    ms', ss' := ThenRecords(ms, ss, s, i);
    assert DonateInfo(b, t.uid) == DonateInfo(s.b, t.uid);
    ms', ss' := ThenSums(ms', ss', u, i, expire);
    assert u.threads[i := t.(crediting := AtUpdate(HistorySum(b, t.uid), expire))]
        == s.threads[i := t.(crediting := AtUpdate(HistorySum(b, t.uid), expire))];
  }

  /** The one row of a player's total. */
  lemma OneTotal(uid: nat, total: int, h: seq<HistoryRow>, c: seq<ConsumeRow>)
    ensures DonateInfo(Books([DonateRow(uid, total, 0, 0)], h, c), uid) == Some(DonateRow(uid, total, 0, 0))
    ensures forall next :: Updated([DonateRow(uid, total, 0, 0)], DonateOf(uid), SetTotal(next, 0, 0)) == [DonateRow(uid, next, 0, 0)]
  {
    var r := DonateRow(uid, total, 0, 0);
    assert [r] == [] + [r];
    WhereAppend([], r, DonateOf(uid));
  }

  /** Thread i writes the total it computed. */
  lemma ThenUpdates(ms: seq<Move>, ss: seq<State>, s: State, i: nat, uid: nat, total: int, sum: int)
    returns (ms': seq<Move>, ss': seq<State>)
    requires Ends(ms, ss, s) && i < |s.threads| && s.threads[i].Crediter? && s.threads[i].uid == uid
    requires s.threads[i].crediting == AtUpdate(sum, 0) && s.b.donates == [DonateRow(uid, total, 0, 0)] && 0 <= sum < TWO_31
    ensures Ends(ms', ss', State(s.b.(donates := [DonateRow(uid, sum, 0, 0)]), s.threads[i := s.threads[i].(crediting := Over)]))
  {
    OneTotal(uid, total, s.b.history, s.b.consumes);
    ColumnExact(sum);
    var b := s.b.(donates := [DonateRow(uid, sum, 0, 0)]);
    RunInv(ms, ss, |ms|);
    assert forall v: nat :: HistorySum(b, v) == HistorySum(s.b, v);
    ms', ss' := Then(ms, ss, s, Go(i, true, 0), State(b, s.threads[i := s.threads[i].(crediting := Over)]));
  }

  /** A purchase of all that the player has left, on its own. */
  lemma ThenBuys(ms: seq<Move>, ss: seq<State>, s: State, uid: nat) returns (ms': seq<Move>, ss': seq<State>)
    requires Ends(ms, ss, s) && DonateInfo(s.b, uid).Some? && ConsumeSum(s.b, uid) <= Donated(s.b, uid)
    ensures var cost := Donated(s.b, uid) - ConsumeSum(s.b, uid);
            && Ends(ms', ss', State(s.b.(consumes := s.b.consumes + [ConsumeRow(uid, "", 0, cost, 0)]),
                                    s.threads + [Buyer(uid, "", 0, cost, Ended)]))
            && ms <= ms' && ss <= ss'
  {
    var total := Donated(s.b, uid);
    var cost := total - ConsumeSum(s.b, uid);
    var t := Buyer(uid, "", 0, cost, AtStart);
    var i := |s.threads|;
    ms', ss' := Then(ms, ss, s, Start(t), s.(threads := s.threads + [t]));
    ms', ss' := ThenReads(ms', ss', s.(threads := s.threads + [t]), i, t.(buying := HasTotal(total)));
    assert (s.threads + [t])[i := t.(buying := HasTotal(total))] == s.threads + [t.(buying := HasTotal(total))];
    ms', ss' := ThenReads(ms', ss', s.(threads := s.threads + [t.(buying := HasTotal(total))]), i, t.(buying := Passed));
    assert (s.threads + [t.(buying := HasTotal(total))])[i := t.(buying := Passed)] == s.threads + [t.(buying := Passed)];
    ms', ss' := ThenInserts(ms', ss', s, t.(buying := Passed));
  }

  /** The last thread, a purchase that has passed its check, records it. */
  lemma ThenInserts(ms: seq<Move>, ss: seq<State>, s: State, t: Thread) returns (ms': seq<Move>, ss': seq<State>)
    requires t.Buyer? && t.buying.Passed? && Ends(ms, ss, s.(threads := s.threads + [t]))
    ensures Ends(ms', ss', State(s.b.(consumes := s.b.consumes + [ConsumeRow(t.uid, t.name, t.item, t.cost, 0)]),
                                 s.threads + [t.(buying := Ended)]))
    ensures ms <= ms' && ss <= ss'
  {
    RunInv(ms, ss, |ms|);
    var b := s.b.(consumes := s.b.consumes + [ConsumeRow(t.uid, t.name, t.item, t.cost, 0)]);
    assert forall v: nat :: HistorySum(b, v) == HistorySum(s.b, v);
    var i := |s.threads|;
    assert (s.threads + [t])[i] == t;
    assert (s.threads + [t])[i := t.(buying := Ended)] == s.threads + [t.(buying := Ended)];
    ms', ss' := Then(ms, ss, s.(threads := s.threads + [t]), Go(i, true, 0), State(b, s.threads + [t.(buying := Ended)]));
  }

  /** A stale write that is about to be made is enough to overspend: any run that reaches one, with the
      player's spending still covered, can go on with one purchase on its own and the write, and then
      the player has spent the old total while the new one is the older, smaller sum. */
  lemma StaleWriteOverspends(ms: seq<Move>, ss: seq<State>, s: State, i: nat, uid: nat)
    returns (ms': seq<Move>, ss': seq<State>, u: State)
    requires Ends(ms, ss, s) && StaleWrite(s, Go(i, true, 0), uid) && ConsumeSum(s.b, uid) <= Donated(s.b, uid)
    ensures Ends(ms', ss', u) && ms <= ms' && ss <= ss'
    ensures ConsumeSum(u.b, uid) == Donated(s.b, uid) > Donated(u.b, uid) == s.threads[i].crediting.sum
    ensures u.b.history == s.b.history && |u.threads| == |s.threads| + 1
    ensures forall j | 0 <= j < |u.threads| :: u.threads[j].Buyer? <==> j == |s.threads| || s.threads[j].Buyer?
  {
    RunInv(ms, ss, |ms|);
    assert s.threads[i] in s.threads && ThreadOk(s.b, s.threads[i]);
    var cost := Donated(s.b, uid) - ConsumeSum(s.b, uid);
    var row, buyer := ConsumeRow(uid, "", 0, cost, 0), Buyer(uid, "", 0, cost, Ended);
    var bought := State(s.b.(consumes := s.b.consumes + [row]), s.threads + [buyer]);
    ms', ss' := ThenBuys(ms, ss, s, uid);
    AfterConsume(s.b, row, uid);
    assert DonateInfo(bought.b, uid) == DonateInfo(s.b, uid) && bought.threads[i] == s.threads[i];
    ms', ss', u := ThenWrites(ms', ss', bought, i, uid);
    assert u.threads == bought.threads[i := s.threads[i].(crediting := Over)];
  }

  /** The write of a sum over the total there is. */
  lemma {:induction false} WriteSum(b: Books, t: Thread)
    requires BooksOk(b) && ThreadOk(b, t) && t.Crediter? && t.crediting.AtUpdate? && DonateInfo(b, t.uid).Some?
    ensures var (b', t') := StepThread(b, t, true, 0);
            && b'.history == b.history && b'.consumes == b.consumes && Donated(b', t.uid) == t.crediting.sum
            && t' == t.(crediting := Over)
  {
    InfoAfter(b, t, true, 0, t.uid);
  }

  /** Thread i writes the sum it computed. */
  lemma {:induction false} ThenWrites(ms: seq<Move>, ss: seq<State>, s: State, i: nat, uid: nat)
    returns (ms': seq<Move>, ss': seq<State>, u: State)
    requires Ends(ms, ss, s) && i < |s.threads| && s.threads[i].Crediter? && s.threads[i].uid == uid
    requires s.threads[i].crediting.AtUpdate? && DonateInfo(s.b, uid).Some?
    ensures Ends(ms', ss', u) && ms <= ms' && ss <= ss'
    ensures u.threads == s.threads[i := s.threads[i].(crediting := Over)]
    ensures u.b.history == s.b.history && u.b.consumes == s.b.consumes && Donated(u.b, uid) == s.threads[i].crediting.sum
  {
    RunInv(ms, ss, |ms|);
    assert s.threads[i] in s.threads;
    WriteSum(s.b, s.threads[i]);
    var (b, t) := StepThread(s.b, s.threads[i], true, 0);
    u := State(b, s.threads[i := t]);
    forall v: nat ensures HistorySum(b, v) < TWO_31 {
      assert HistorySum(b, v) == HistorySum(s.b, v);
    }
    ms', ss' := Then(ms, ss, s, Go(i, true, 0), u);
  }

  function IsBuyer(): Thread -> int { (t: Thread) => if t.Buyer? then 1 else 0 }

  lemma {:induction false} PassedAreBuyers(threads: seq<Thread>, uid: nat)
    ensures SumBy(threads, IsPassed(uid)) <= SumBy(threads, IsBuyer())
  {
    if threads != [] {
      PassedAreBuyers(threads[1..], uid);
    }
  }

  lemma BuyersStep(s: State, m: Move)
    requires m.Go? ==> m.i < |s.threads|
    ensures SumBy(s.threads, IsBuyer()) <= SumBy(Next(s, m).threads, IsBuyer())
  {
    match m
    case Start(t) => SumAppend(s.threads, t, IsBuyer());
    case Go(i, ok, now) => SumReplace(s.threads, i, StepThread(s.b, s.threads[i], ok, now).1, IsBuyer());
  }

  /** The purchases in flight at any time are at most all the purchases of the run. */
  lemma {:induction false} FlightAtMost(ms: seq<Move>, ss: seq<State>, i: nat, n: nat, uid: nat)
    requires IsRun(ms, ss) && i <= n < |ss|
    ensures InFlight(ss[i], uid) <= SumBy(ss[n].threads, IsBuyer())
    decreases n
  {
    if i == n {
      PassedAreBuyers(ss[n].threads, uid);
    } else {
      FlightAtMost(ms, ss, i, n - 1, uid);
      assert StepAt(ms, ss, n - 1);
      BuyersStep(ss[n - 1], ms[n - 1]);
    }
  }

  /** Two credits of a player with a total have both summed the history, the second after the first. */
  lemma TwoSums(uid: nat, a: int, x: int, y: int) returns (ms: seq<Move>, ss: seq<State>)
    requires 0 <= a && 0 <= x && 0 <= y && a + x + y + y < TWO_31
    ensures Ends(ms, ss, State(Books([DonateRow(uid, a, 0, 0)],
                                     [HistoryRow(uid, a, 0, "a"), HistoryRow(uid, x, 0, "b"), HistoryRow(uid, y, 0, "c")], []),
                               [Crediter(uid, a, "a", Over), Crediter(uid, x, "b", AtUpdate(a + x, 0)),
                                Crediter(uid, y, "c", AtUpdate(a + x + y, 0))]))
  {
    ms, ss := FirstCredit(uid, a, "a");
    var first := Crediter(uid, a, "a", Over);
    var t, u := Crediter(uid, x, "b", AtCheck), Crediter(uid, y, "c", AtCheck);
    var h0 := [HistoryRow(uid, a, 0, "a")];
    var h1 := h0 + [HistoryRow(uid, x, 0, "b")];
    var d := [DonateRow(uid, a, 0, 0)];
    HistoryOfThree(uid, a, x, y);
    OneTotal(uid, a, h0, []);
    OneTotal(uid, a, h1, []);
    ms, ss := Then(ms, ss, State(Books(d, h0, []), [first]), Start(t), State(Books(d, h0, []), [first, t]));
    ms, ss := Then(ms, ss, State(Books(d, h0, []), [first, t]), Start(u), State(Books(d, h0, []), [first, t, u]));
    ms, ss := ThenCreditsUpToUpdate(ms, ss, State(Books(d, h0, []), [first, t, u]), 1, 0);
    var t' := t.(crediting := AtUpdate(a + x, 0));
    assert [first, t, u][1 := t'] == [first, t', u];
    ms, ss := ThenCreditsUpToUpdate(ms, ss, State(Books(d, h1, []), [first, t', u]), 2, 0);
    var u' := u.(crediting := AtUpdate(a + x + y, 0));
    assert [first, t', u][2 := u'] == [first, t', u'];
  }

  /** Two overlapping credits can leave a total that misses one of them: here the later sum is
      written first, spent, and then overwritten by the earlier one, so the player has spent more
      than the total by the amount lost, although the only purchase ran on its own. */
  lemma LostUpdate(uid: nat, a: int, x: int, y: int) returns (ms: seq<Move>, ss: seq<State>)
    requires 0 <= a && 0 <= x && 0 < y && a + x + y + y < TWO_31
    ensures IsRun(ms, ss) && forall i | 0 <= i < |ss| :: InFlight(ss[i], uid) <= 1
    ensures var b := ss[|ms|].b;
            Donated(b, uid) == a + x && ConsumeSum(b, uid) == HistorySum(b, uid) == a + x + y
  {
    ms, ss := TwoSums(uid, a, x, y);
    ms, ss := ThenUpdates(ms, ss, ss[|ms|], 2, uid, a, a + x + y);
    var s := ss[|ms|];
    OneTotal(uid, a + x + y, s.b.history, []);
    var u;
    ms, ss, u := StaleWriteOverspends(ms, ss, s, 1, uid);
    HistoryOfThree(uid, a, x, y);
    var h := [HistoryRow(uid, a, 0, "a"), HistoryRow(uid, x, 0, "b"), HistoryRow(uid, y, 0, "c")];
    assert u.b == Books(u.b.donates, h, u.b.consumes) && h == [h[0]] + [h[1]] + [h[2]];
    assert |u.threads| == 4 && u.threads == [u.threads[0], u.threads[1], u.threads[2], u.threads[3]];
    OneBuyer(u.threads[0], u.threads[1], u.threads[2], u.threads[3]);
    forall i | 0 <= i < |ss| ensures InFlight(ss[i], uid) <= 1 {
      FlightAtMost(ms, ss, i, |ms|, uid);
    }
  }

  lemma OneBuyer(a: Thread, b: Thread, c: Thread, d: Thread)
    requires a.Crediter? && b.Crediter? && c.Crediter? && d.Buyer?
    ensures SumBy([a, b, c, d], IsBuyer()) == 1
  {
    assert [a, b, c, d] == [a] + [b] + [c] + [d];
    SumAppend([], a, IsBuyer());
    SumAppend([a], b, IsBuyer());
    SumAppend([a] + [b], c, IsBuyer());
    SumAppend([a] + [b] + [c], d, IsBuyer());
    assert [] + [a] == [a];
  }

  lemma HistoryOfThree(uid: nat, a: int, x: int, y: int)
    ensures var h0 := [HistoryRow(uid, a, 0, "a")];
            var h1 := h0 + [HistoryRow(uid, x, 0, "b")];
            var h2 := h1 + [HistoryRow(uid, y, 0, "c")];
            && !Exists(h0, HasOrder("b")) && !Exists(h1, HasOrder("c"))
            && forall u: nat, d, c ::
                 && HistorySum(Books(d, h0, c), u) == (if u == uid then a else 0)
                 && HistorySum(Books(d, h1, c), u) == (if u == uid then a + x else 0)
                 && HistorySum(Books(d, h2, c), u) == (if u == uid then a + x + y else 0)
  {
    var h0 := [HistoryRow(uid, a, 0, "a")];
    var h1 := h0 + [HistoryRow(uid, x, 0, "b")];
    var h2 := h1 + [HistoryRow(uid, y, 0, "c")];
    assert "a" != "b" && "a" != "c" && "b" != "c" by { assert "a"[0] == 'a' && "b"[0] == 'b' && "c"[0] == 'c'; }
    forall u: nat, d, c
      ensures && HistorySum(Books(d, h0, c), u) == (if u == uid then a else 0)
              && HistorySum(Books(d, h1, c), u) == (if u == uid then a + x else 0)
              && HistorySum(Books(d, h2, c), u) == (if u == uid then a + x + y else 0)
    {
      assert [] + [h0[0]] == h0;
      AfterRecord(Books(d, [], c), h0[0], u);
      AfterRecord(Books(d, h0, c), h1[1], u);
      AfterRecord(Books(d, h1, c), h2[2], u);
    }
  }

  // The spending bound is reached.

  /** n buyers at the same point, each buying for the same cost. */
  function Crowd(uid: nat, cost: nat, n: nat, pc: BuyPc): (ts: seq<Thread>)
    ensures |ts| == n && forall i | 0 <= i < n :: ts[i] == Buyer(uid, "", 0, cost, pc)
  {
    seq(n, _ => Buyer(uid, "", 0, cost, pc))
  }

  function Purchases(uid: nat, cost: nat, n: nat): seq<ConsumeRow>
  {
    seq(n, _ => ConsumeRow(uid, "", 0, cost, 0))
  }

  lemma {:induction false} PurchasesSum(uid: nat, cost: nat, n: nat, d: seq<DonateRow>, h: seq<HistoryRow>)
    ensures ConsumeSum(Books(d, h, Purchases(uid, cost, n)), uid) == cost * n
  {
    if n > 0 {
      PurchasesSum(uid, cost, n - 1, d, h);
      AfterConsume(Books(d, h, Purchases(uid, cost, n - 1)), ConsumeRow(uid, "", 0, cost, 0), uid);
      assert Purchases(uid, cost, n) == Purchases(uid, cost, n - 1) + [ConsumeRow(uid, "", 0, cost, 0)];
      assert cost * n == cost * (n - 1) + cost;
    }
  }

  /** Moving the j-th of a crowd on by one step. */
  lemma CrowdMoves(first: Thread, uid: nat, cost: nat, n: nat, j: nat, before: BuyPc, after: BuyPc)
    requires j < n
    ensures var s := [first] + Crowd(uid, cost, j, after) + Crowd(uid, cost, n - j, before);
            && s[j + 1] == Buyer(uid, "", 0, cost, before)
            && s[j + 1 := Buyer(uid, "", 0, cost, after)]
               == [first] + Crowd(uid, cost, j + 1, after) + Crowd(uid, cost, n - j - 1, before)
  {
  }

  /** The books after the one credit and j purchases. */
  function Sold(uid: nat, cost: nat, j: nat): Books
  {
    Books([DonateRow(uid, cost, 0, 0)], [HistoryRow(uid, cost, 0, "a")], Purchases(uid, cost, j))
  }

  function Line(uid: nat, cost: nat, k: nat, j: nat, before: BuyPc, after: BuyPc): seq<Thread>
    requires j <= k
  {
    [Crediter(uid, cost, "a", Over)] + Crowd(uid, cost, j, after) + Crowd(uid, cost, k - j, before)
  }

  lemma CrowdReads(uid: nat, cost: nat, k: nat) returns (ms: seq<Move>, ss: seq<State>)
    requires cost < TWO_31
    ensures Ends(ms, ss, State(Sold(uid, cost, 0), Line(uid, cost, k, 0, HasTotal(cost), Passed)))
  {
    var first := Crediter(uid, cost, "a", Over);
    ms, ss := FirstCredit(uid, cost, "a");
    OneTotal(uid, cost, [HistoryRow(uid, cost, 0, "a")], []);
    var j := 0;
    assert [first] == [first] + Crowd(uid, cost, 0, HasTotal(cost));
    while j < k
      invariant j <= k && Ends(ms, ss, State(Sold(uid, cost, 0), [first] + Crowd(uid, cost, j, HasTotal(cost))))
    {
      var line := [first] + Crowd(uid, cost, j, HasTotal(cost));
      var t := Buyer(uid, "", 0, cost, AtStart);
      ms, ss := Then(ms, ss, State(Sold(uid, cost, 0), line), Start(t), State(Sold(uid, cost, 0), line + [t]));
      ms, ss := ThenReads(ms, ss, State(Sold(uid, cost, 0), line + [t]), j + 1, t.(buying := HasTotal(cost)));
      assert (line + [t])[j + 1 := t.(buying := HasTotal(cost))] == [first] + Crowd(uid, cost, j + 1, HasTotal(cost));
      j := j + 1;
    }
    assert Line(uid, cost, k, 0, HasTotal(cost), Passed) == [first] + Crowd(uid, cost, k, HasTotal(cost));
  }

  lemma CrowdPasses(uid: nat, cost: nat, k: nat) returns (ms: seq<Move>, ss: seq<State>)
    requires cost < TWO_31
    ensures Ends(ms, ss, State(Sold(uid, cost, 0), Line(uid, cost, k, 0, Passed, Ended)))
  {
    ms, ss := CrowdReads(uid, cost, k);
    PurchasesSum(uid, cost, 0, Sold(uid, cost, 0).donates, Sold(uid, cost, 0).history);
    var j := 0;
    while j < k
      invariant j <= k && Ends(ms, ss, State(Sold(uid, cost, 0), Line(uid, cost, k, j, HasTotal(cost), Passed)))
    {
      CrowdMoves(Crediter(uid, cost, "a", Over), uid, cost, k, j, HasTotal(cost), Passed);
      ms, ss := ThenReads(ms, ss, State(Sold(uid, cost, 0), Line(uid, cost, k, j, HasTotal(cost), Passed)), j + 1,
                          Buyer(uid, "", 0, cost, Passed));
      j := j + 1;
    }
    assert Line(uid, cost, k, k, HasTotal(cost), Passed) == Line(uid, cost, k, 0, Passed, Ended);
  }

  lemma CrowdBuys(uid: nat, cost: nat, k: nat) returns (ms: seq<Move>, ss: seq<State>)
    requires cost < TWO_31
    ensures Ends(ms, ss, State(Sold(uid, cost, k), Line(uid, cost, k, k, Passed, Ended)))
  {
    ms, ss := CrowdPasses(uid, cost, k);
    var j := 0;
    while j < k
      invariant j <= k && Ends(ms, ss, State(Sold(uid, cost, j), Line(uid, cost, k, j, Passed, Ended)))
    {
      CrowdMoves(Crediter(uid, cost, "a", Over), uid, cost, k, j, Passed, Ended);
      RunInv(ms, ss, |ms|);
      assert Sold(uid, cost, j).consumes + [ConsumeRow(uid, "", 0, cost, 0)] == Sold(uid, cost, j + 1).consumes;
      var line := Line(uid, cost, k, j, Passed, Ended);
      var sold := Sold(uid, cost, j + 1);
      assert StepThread(Sold(uid, cost, j), line[j + 1], true, 0).0 == sold;
      forall v: nat ensures HistorySum(sold, v) < TWO_31 {
        assert HistorySum(sold, v) == HistorySum(Sold(uid, cost, j), v);
      }
      ms, ss := Then(ms, ss, State(Sold(uid, cost, j), Line(uid, cost, k, j, Passed, Ended)), Go(j + 1, true, 0),
                     State(Sold(uid, cost, j + 1), Line(uid, cost, k, j + 1, Passed, Ended)));
      j := j + 1;
    }
  }

  /** One credit first, then only purchases of the same cost. */
  ghost predicate Orderly(s: State, cost: int)
  {
    && (forall i | 0 < i < |s.threads| :: s.threads[i].Buyer? && s.threads[i].cost == cost)
    && (|s.threads| > 0 ==> s.threads[0].Crediter?)
  }

  lemma OrderlyBefore(s: State, m: Move, cost: int)
    requires (m.Go? ==> m.i < |s.threads|) && Orderly(Next(s, m), cost)
    ensures Orderly(s, cost)
  {
    var u := Next(s, m);
    forall i | 0 <= i < |s.threads| ensures s.threads[i].Buyer? == u.threads[i].Buyer? && (s.threads[i].Buyer? ==> s.threads[i].cost == u.threads[i].cost) {
    }
  }

  lemma {:induction false} OrderlyThroughout(ms: seq<Move>, ss: seq<State>, i: nat, n: nat, cost: int)
    requires IsRun(ms, ss) && i <= n < |ss| && Orderly(ss[n], cost)
    ensures Orderly(ss[i], cost)
    decreases n
  {
    if i < n {
      assert StepAt(ms, ss, n - 1);
      OrderlyBefore(ss[n - 1], ms[n - 1], cost);
      OrderlyThroughout(ms, ss, i, n - 1, cost);
    }
  }

  lemma {:induction false} CrowdCount(uid: nat, cost: nat, n: nat, pc: BuyPc)
    ensures SumBy(Crowd(uid, cost, n, pc), IsBuyer()) == n
  {
    if n > 0 {
      CrowdCount(uid, cost, n - 1, pc);
      assert Crowd(uid, cost, n, pc)[1..] == Crowd(uid, cost, n - 1, pc);
    }
  }

  /** The spending bound cannot be improved: for every player, number of purchases in flight and cost
      there is a run within the bound's conditions, with a single credit, that spends exactly the
      total plus (k - 1) times the cost. */
  lemma BoundReached(uid: nat, k: nat, most: nat) returns (ms: seq<Move>, ss: seq<State>)
    requires k >= 1 && most < TWO_31
    ensures IsRun(ms, ss)
    ensures forall i | 0 <= i < |ss| :: InFlight(ss[i], uid) <= k && CostsAtMost(ss[i], uid, most) && Serial(ss[i], uid)
    ensures var b := ss[|ms|].b;
            ConsumeSum(b, uid) == Donated(b, uid) + most * (k - 1) && Donated(b, uid) == most
  {
    ms, ss := CrowdBuys(uid, most, k);
    var first := Crediter(uid, most, "a", Over);
    OneTotal(uid, most, Sold(uid, most, k).history, Sold(uid, most, k).consumes);
    PurchasesSum(uid, most, k, Sold(uid, most, k).donates, Sold(uid, most, k).history);
    assert most * k == most + most * (k - 1);
    assert Line(uid, most, k, k, Passed, Ended) == [first] + Crowd(uid, most, k, Ended);
    CrowdCount(uid, most, k, Ended);
    assert ([first] + Crowd(uid, most, k, Ended))[1..] == Crowd(uid, most, k, Ended);
    assert SumBy([first] + Crowd(uid, most, k, Ended), IsBuyer()) == k;
    assert Orderly(ss[|ms|], most);
    forall i | 0 <= i < |ss|
      ensures InFlight(ss[i], uid) <= k && CostsAtMost(ss[i], uid, most) && Serial(ss[i], uid)
    {
      FlightAtMost(ms, ss, i, |ms|, uid);
      OrderlyThroughout(ms, ss, i, |ms|, most);
    }
  }
}
