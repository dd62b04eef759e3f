/** Credits and purchases run in HTTP goroutines, so their statements interleave. Each statement is
    one atomic step of a thread; any write may fail. */
module LedgerInterleaving {
  import opened GoInts
  import opened Tables
  import opened Ledger

  datatype BuyPc = AtStart | HasTotal(total: int) | Passed | Ended

  datatype CreditPc = AtCheck | AtRecord | AtExists | AtInsert | AtInfo | AtSum(expire: int) | AtUpdate(sum: int, expire: int) | Over

  datatype Thread =
    | Buyer(uid: nat, name: string, item: int, cost: int, buying: BuyPc)
    | Crediter(uid: nat, money: int, order: string, crediting: CreditPc)

  datatype State = State(b: Books, threads: seq<Thread>)

  /** A request arrives, or thread i takes its next step; ok is whether a write is taken. */
  datatype Move = Start(t: Thread) | Go(i: nat, ok: bool, now: int)

  function StepBuyer(b: Books, t: Thread, ok: bool, now: int): (Books, Thread)
    requires t.Buyer?
  {
    match t.buying
    case AtStart =>
      (b, t.(buying := if t.cost < 0 || DonateInfo(b, t.uid).None? then Ended else HasTotal(DonateInfo(b, t.uid).value.donate)))
    case HasTotal(total) =>
      (b, t.(buying := if total - ConsumeSum(b, t.uid) < t.cost then Ended else Passed))
    case Passed =>
      (if ok then b.(consumes := b.consumes + [ConsumeRow(t.uid, t.name, t.item, t.cost, now)]) else b, t.(buying := Ended))
    case Ended => (b, t)
  }

  function StepCrediter(b: Books, t: Thread, ok: bool, now: int): (Books, Thread)
    requires t.Crediter?
  {
    match t.crediting
    case AtCheck => (b, t.(crediting := if Exists(b.history, HasOrder(t.order)) then Over else AtRecord))
    case AtRecord =>
      if ok then (b.(history := b.history + [HistoryRow(t.uid, t.money, now, t.order)]), t.(crediting := AtExists))
      else (b, t.(crediting := Over))
    case AtExists => (b, t.(crediting := if DonateInfo(b, t.uid).Some? then AtInfo else AtInsert))
    case AtInsert =>
      (if ok && DonateInfo(b, t.uid).None?
       then b.(donates := b.donates + [DonateRow(t.uid, Column(t.money), now, 0)]) else b,
       t.(crediting := Over))
    case AtInfo =>
      (b, t.(crediting := if DonateInfo(b, t.uid).None? then Over else AtSum(DonateInfo(b, t.uid).value.expire)))
    case AtSum(expire) => (b, t.(crediting := AtUpdate(HistorySum(b, t.uid), expire)))
    case AtUpdate(sum, expire) =>
      (if ok then b.(donates := Updated(b.donates, DonateOf(t.uid), SetTotal(Column(sum), now, expire))) else b,
       t.(crediting := Over))
    case Over => (b, t)
  }

  function StepThread(b: Books, t: Thread, ok: bool, now: int): (Books, Thread)
  {
    if t.Buyer? then StepBuyer(b, t, ok, now) else StepCrediter(b, t, ok, now)
  }

  predicate Fresh(t: Thread)
  {
    if t.Buyer? then t.buying.AtStart? else t.crediting.AtCheck? && t.money >= 0
  }

  ghost predicate Enabled(s: State, m: Move)
  {
    match m
    case Start(t) => Fresh(t)
    case Go(i, ok, now) =>
      && i < |s.threads|
      && forall uid: nat :: HistorySum(StepThread(s.b, s.threads[i], ok, now).0, uid) < TWO_31
  }

  function Next(s: State, m: Move): State
  {
    match m
    case Start(t) => s.(threads := s.threads + [t])
    case Go(i, ok, now) =>
      if i < |s.threads| then
        var (b, t) := StepThread(s.b, s.threads[i], ok, now);
        State(b, s.threads[i := t])
      else s
  }

  /** n steps of a thread with nobody else about; recorded is for the history insert, written for any other write. */
  function Alone(b: Books, t: Thread, recorded: bool, written: bool, now: int, n: nat): (Books, Thread)
    decreases n
  {
    if n == 0 then (b, t)
    else
      var (b', t') := StepThread(b, t, if t.Crediter? && t.crediting.AtRecord? then recorded else written, now);
      Alone(b', t', recorded, written, now, n - 1)
  }

  /** A purchase that nobody interrupts is the purchase of the ledger in one piece. */
  lemma {:induction false} AloneBuys(b: Books, uid: nat, name: string, item: int, cost: int, now: int, written: bool)
    ensures Alone(b, Buyer(uid, name, item, cost, AtStart), true, written, now, 3)
            == (Buy(b, uid, name, item, cost, now, written).0, Buyer(uid, name, item, cost, Ended))
  {
    var t := Buyer(uid, name, item, cost, AtStart);
    var (b1, t1) := StepThread(b, t, written, now);
    var (b2, t2) := StepThread(b1, t1, written, now);
    assert Alone(b, t, true, written, now, 3) == Alone(b1, t1, true, written, now, 2);
    assert Alone(b1, t1, true, written, now, 2) == Alone(b2, t2, true, written, now, 1);
    assert Alone(b2, t2, true, written, now, 1) == StepThread(b2, t2, written, now);
  }

  /** So is a credit, whichever of its two writes fail. */
  lemma {:induction false} AloneCredits(b: Books, uid: nat, money: int, order: string, now: int, recorded: bool, totalled: bool)
    ensures Alone(b, Crediter(uid, money, order, AtCheck), recorded, totalled, now, 6)
            == (Credit(b, uid, money, order, now, recorded, totalled).0, Crediter(uid, money, order, Over))
  {
    var t := Crediter(uid, money, order, AtCheck);
    if Exists(b.history, HasOrder(order)) {
      AloneOver(b, t.(crediting := Over), recorded, totalled, now, 5);
    } else if !recorded {
      AloneOver(b, t.(crediting := Over), recorded, totalled, now, 4);
    } else {
      var h := b.(history := b.history + [HistoryRow(uid, money, now, order)]);
      assert Alone(b, t, recorded, totalled, now, 6) == Alone(b, t.(crediting := AtRecord), recorded, totalled, now, 5);
      assert Alone(b, t.(crediting := AtRecord), recorded, totalled, now, 5)
          == Alone(h, t.(crediting := AtExists), recorded, totalled, now, 4);
      AloneTotals(h, t, recorded, totalled, now);
    }
  }

  lemma AloneTotals(h: Books, t: Thread, recorded: bool, totalled: bool, now: int)
    requires t.Crediter?
    ensures Alone(h, t.(crediting := AtExists), recorded, totalled, now, 4) ==
            (if !totalled then h
             else match DonateInfo(h, t.uid)
               case None => h.(donates := h.donates + [DonateRow(t.uid, Column(t.money), now, 0)])
               case Some(info) =>
                 h.(donates := Updated(h.donates, DonateOf(t.uid), SetTotal(Column(HistorySum(h, t.uid)), now, info.expire))),
             t.(crediting := Over))
  {
    match DonateInfo(h, t.uid)
    case None =>
      var (b, u) := StepThread(h, t.(crediting := AtInsert), totalled, now);
      assert Alone(h, t.(crediting := AtExists), recorded, totalled, now, 4)
          == Alone(h, t.(crediting := AtInsert), recorded, totalled, now, 3)
          == Alone(b, u, recorded, totalled, now, 2);
      AloneOver(b, u, recorded, totalled, now, 2);
    case Some(info) =>
      var ready := t.(crediting := AtUpdate(HistorySum(h, t.uid), info.expire));
      assert Alone(h, t.(crediting := AtExists), recorded, totalled, now, 4)
          == Alone(h, t.(crediting := AtInfo), recorded, totalled, now, 3)
          == Alone(h, t.(crediting := AtSum(info.expire)), recorded, totalled, now, 2)
          == Alone(h, ready, recorded, totalled, now, 1);
      assert Alone(h, ready, recorded, totalled, now, 1) == StepThread(h, ready, totalled, now);
  }

  lemma {:induction false} AloneOver(b: Books, t: Thread, recorded: bool, written: bool, now: int, n: nat)
    requires t.Crediter? && t.crediting == Over
    ensures Alone(b, t, recorded, written, now, n) == (b, t)
    decreases n
  {
    if n > 0 {
      AloneOver(b, t, recorded, written, now, n - 1);
    }
  }

  const INIT := State(Books([], [], []), [])

  ghost predicate StepAt(ms: seq<Move>, ss: seq<State>, i: nat)
  {
    i < |ms| && i + 1 < |ss| && Enabled(ss[i], ms[i]) && ss[i + 1] == Next(ss[i], ms[i])
  }

  ghost predicate IsRun(ms: seq<Move>, ss: seq<State>)
  {
    |ss| == |ms| + 1 && ss[0] == INIT && forall i: nat | i < |ms| :: StepAt(ms, ss, i)
  }

  // Totals never exceed the history, however the statements interleave.

  /** What a thread has read so far is still covered by the history. */
  ghost predicate ThreadOk(b: Books, t: Thread)
  {
    match t
    case Buyer(uid, _, _, cost, pc) =>
      (pc.HasTotal? || pc.Passed? ==> cost >= 0) && (pc.HasTotal? ==> pc.total <= HistorySum(b, uid))
    case Crediter(uid, money, _, pc) =>
      && money >= 0
      && (pc.AtExists? || pc.AtInsert? || pc.AtInfo? || pc.AtSum? ==> money <= HistorySum(b, uid))
      && (pc.AtUpdate? ==> 0 <= pc.sum <= HistorySum(b, uid))
  }

  ghost predicate BooksOk(b: Books)
  {
    && DonateKeys(b) && CostsOk(b)
    && (forall r | r in b.history :: r.donate >= 0)
    && (forall uid: nat :: 0 <= Donated(b, uid) <= HistorySum(b, uid) < TWO_31)
  }

  ghost predicate Inv(s: State)
  {
    BooksOk(s.b) && forall t | t in s.threads :: ThreadOk(s.b, t)
  }

  /** One step of one thread keeps the books and never lowers a history sum. */
  lemma {:induction false} StepKeepsBooks(b: Books, t: Thread, ok: bool, now: int)
    requires BooksOk(b) && ThreadOk(b, t)
    requires forall uid: nat :: HistorySum(StepThread(b, t, ok, now).0, uid) < TWO_31
    ensures var (b', t') := StepThread(b, t, ok, now);
            BooksOk(b') && ThreadOk(b', t') && forall uid: nat :: HistorySum(b, uid) <= HistorySum(b', uid)
  {
    var (b', t') := StepThread(b, t, ok, now);
    if t.Crediter? {
      if t.crediting.AtRecord? && ok {
        RecordStep(b, HistoryRow(t.uid, t.money, now, t.order));
      } else if t.crediting.AtInsert? && b' != b {
        ColumnExact(t.money);
        InsertStep(b, DonateRow(t.uid, t.money, now, 0));
      } else if t.crediting.AtUpdate? && ok {
        ColumnExact(t.crediting.sum);
        UpdateStep(b, t.uid, t.crediting.sum, now, t.crediting.expire);
      }
    } else if b' != b {
      ConsumeStep(b, ConsumeRow(t.uid, t.name, t.item, t.cost, now));
    }
  }

  lemma RecordStep(b: Books, r: HistoryRow)
    requires BooksOk(b) && r.donate >= 0
    ensures var c := b.(history := b.history + [r]);
            && (forall uid: nat :: HistorySum(c, uid) == HistorySum(b, uid) + if uid == r.uid then r.donate else 0)
            && (forall uid: nat :: 0 <= Donated(c, uid) == Donated(b, uid) <= HistorySum(c, uid))
            && DonateKeys(c) && CostsOk(c) && forall x | x in c.history :: x.donate >= 0
  {
    var c := b.(history := b.history + [r]);
    forall uid: nat
      ensures HistorySum(c, uid) == HistorySum(b, uid) + if uid == r.uid then r.donate else 0
      ensures 0 <= Donated(c, uid) == Donated(b, uid) <= HistorySum(c, uid)
    {
      AfterRecord(b, r, uid);
      assert Donated(c, uid) == Donated(b, uid) && 0 <= Donated(b, uid) <= HistorySum(b, uid);
    }
  }

  lemma InsertStep(b: Books, r: DonateRow)
    requires BooksOk(b) && DonateInfo(b, r.uid).None? && 0 <= r.donate <= HistorySum(b, r.uid)
    ensures var c := b.(donates := b.donates + [r]);
            BooksOk(c) && forall uid: nat :: DonateInfo(c, uid) == if uid == r.uid then Some(r) else DonateInfo(b, uid)
  {
    var c := b.(donates := b.donates + [r]);
    AfterInsertTotal(b, r, r.uid);
    forall uid: nat
      ensures DonateInfo(c, uid) == if uid == r.uid then Some(r) else DonateInfo(b, uid)
      ensures 0 <= Donated(c, uid) <= HistorySum(c, uid) < TWO_31
    {
      AfterInsertTotal(b, r, uid);
      assert HistorySum(c, uid) == HistorySum(b, uid) && 0 <= Donated(b, uid) <= HistorySum(b, uid) < TWO_31;
    }
  }

  /** An update of a total that is not there changes nothing. */
  lemma UpdateNothing(b: Books, key: nat, total: int, now: int, expire: int)
    requires DonateInfo(b, key).None?
    ensures Updated(b.donates, DonateOf(key), SetTotal(total, now, expire)) == b.donates
  {
    var rows := Updated(b.donates, DonateOf(key), SetTotal(total, now, expire));
    forall i | 0 <= i < |b.donates| ensures rows[i] == b.donates[i] {
      assert b.donates[i] in b.donates && !DonateOf(key)(b.donates[i]);
    }
  }

  lemma UpdateStep(b: Books, key: nat, total: int, now: int, expire: int)
    requires BooksOk(b) && 0 <= total <= HistorySum(b, key)
    ensures var c := b.(donates := Updated(b.donates, DonateOf(key), SetTotal(total, now, expire)));
            && BooksOk(c)
            && forall uid: nat :: DonateInfo(c, uid) ==
                 if uid == key && DonateInfo(b, key).Some? then Some(DonateRow(key, total, now, expire)) else DonateInfo(b, uid)
  {
    if DonateInfo(b, key).None? {
      UpdateNothing(b, key, total, now, expire);
    } else {
      var c := b.(donates := Updated(b.donates, DonateOf(key), SetTotal(total, now, expire)));
      AfterUpdateTotal(b, key, total, now, expire, key);
      forall uid: nat
        ensures DonateInfo(c, uid) == if uid == key then Some(DonateRow(key, total, now, expire)) else DonateInfo(b, uid)
        ensures 0 <= Donated(c, uid) <= HistorySum(c, uid) < TWO_31
      {
        AfterUpdateTotal(b, key, total, now, expire, uid);
        assert HistorySum(c, uid) == HistorySum(b, uid) && 0 <= Donated(b, uid) <= HistorySum(b, uid) < TWO_31;
      }
    }
  }

  lemma ConsumeStep(b: Books, r: ConsumeRow)
    requires BooksOk(b) && r.cost >= 0
    ensures var c := b.(consumes := b.consumes + [r]);
            && BooksOk(c)
            && forall uid: nat :: ConsumeSum(c, uid) == ConsumeSum(b, uid) + if uid == r.uid then r.cost else 0
  {
    var c := b.(consumes := b.consumes + [r]);
    forall uid: nat ensures ConsumeSum(c, uid) == ConsumeSum(b, uid) + if uid == r.uid then r.cost else 0 {
      AfterConsume(b, r, uid);
    }
    assert forall uid: nat :: HistorySum(c, uid) == HistorySum(b, uid) && Donated(c, uid) == Donated(b, uid);
  }

  lemma NextKeepsInv(s: State, m: Move)
    requires Inv(s) && Enabled(s, m)
    ensures Inv(Next(s, m)) && forall uid: nat :: HistorySum(s.b, uid) <= HistorySum(Next(s, m).b, uid)
  {
    match m
    case Start(t) =>
    case Go(i, ok, now) =>
      var t := s.threads[i];
      assert t in s.threads;
      StepKeepsBooks(s.b, t, ok, now);
      var u := Next(s, m);
      forall x | x in u.threads ensures ThreadOk(u.b, x) {
        var j :| 0 <= j < |u.threads| && u.threads[j] == x;
        if j != i { assert s.threads[j] in s.threads; }
      }
  }

  lemma {:induction false} RunInv(ms: seq<Move>, ss: seq<State>, n: nat)
    requires IsRun(ms, ss) && n < |ss|
    ensures Inv(ss[n])
  {
    if n > 0 {
      RunInv(ms, ss, n - 1);
      assert StepAt(ms, ss, n - 1);
      NextKeepsInv(ss[n - 1], ms[n - 1]);
    }
  }

  // What one step makes of a player's total and history.

  lemma {:induction false} InfoAfter(b: Books, t: Thread, ok: bool, now: int, uid: nat)
    requires BooksOk(b) && ThreadOk(b, t)
    ensures DonateInfo(StepThread(b, t, ok, now).0, uid) ==
            if t.Crediter? && t.uid == uid && ok && t.crediting.AtInsert? && DonateInfo(b, uid).None?
            then Some(DonateRow(uid, t.money, now, 0))
            else if t.Crediter? && t.uid == uid && ok && t.crediting.AtUpdate? && DonateInfo(b, uid).Some?
            then Some(DonateRow(uid, t.crediting.sum, now, t.crediting.expire))
            else DonateInfo(b, uid)
  {
    if t.Crediter? && t.crediting.AtInsert? && ok && DonateInfo(b, t.uid).None? {
      assert HistorySum(b, t.uid) < TWO_31;
      ColumnExact(t.money);
      InsertStep(b, DonateRow(t.uid, t.money, now, 0));
    } else if t.Crediter? && t.crediting.AtUpdate? && ok {
      assert HistorySum(b, t.uid) < TWO_31;
      ColumnExact(t.crediting.sum);
      UpdateStep(b, t.uid, t.crediting.sum, now, t.crediting.expire);
    } else {
      assert StepThread(b, t, ok, now).0.donates == b.donates;
    }
  }

  lemma {:induction false} HistoryAfter(b: Books, t: Thread, ok: bool, now: int, uid: nat)
    ensures HistorySum(StepThread(b, t, ok, now).0, uid) ==
            HistorySum(b, uid) + if t.Crediter? && t.uid == uid && ok && t.crediting.AtRecord? then t.money else 0
  {
    if t.Crediter? && t.crediting.AtRecord? && ok {
      AfterRecord(b, HistoryRow(t.uid, t.money, now, t.order), uid);
    } else {
      assert StepThread(b, t, ok, now).0.history == b.history;
    }
  }
}
