/** The donation ledger over whole runs of credits and purchases, each handled on its own. */
module LedgerRuns {
  import opened GoInts
  import opened Tables
  import opened Ledger

  datatype Op =
    | Give(uid: nat, money: int, order: string, now: int, recorded: bool, totalled: bool)
    | Spend(uid: nat, name: string, item: int, cost: int, now: int, written: bool)
    | Forget(uid: nat, totalGone: bool, historyGone: bool)

  function Apply(b: Books, op: Op): Books
  {
    match op
    case Give(uid, money, order, now, recorded, totalled) => Credit(b, uid, money, order, now, recorded, totalled).0
    case Spend(uid, name, item, cost, now, written) => Buy(b, uid, name, item, cost, now, written).0
    case Forget(uid, totalGone, historyGone) => Remove(b, uid, totalGone, historyGone).0
  }

  const EMPTY := Books([], [], [])

  /** bs are the books passed through when ops are handled on empty tables. */
  ghost predicate IsRun(ops: seq<Op>, bs: seq<Books>)
  {
    |bs| == |ops| + 1 && bs[0] == EMPTY && forall i: nat | i < |ops| :: StepAt(ops, bs, i)
  }

  ghost predicate StepAt(ops: seq<Op>, bs: seq<Books>, i: nat)
  {
    i < |ops| && i + 1 < |bs| && bs[i + 1] == Apply(bs[i], ops[i])
  }

  /** Every player's history sum can be stored as a total. */
  ghost predicate SumsFit(b: Books)
  {
    forall uid: nat :: 0 <= HistorySum(b, uid) < TWO_31
  }

  lemma {:induction false} RunCostsOk(ops: seq<Op>, bs: seq<Books>, n: nat)
    requires IsRun(ops, bs) && n < |bs|
    ensures CostsOk(bs[n])
  {
    if n > 0 {
      RunCostsOk(ops, bs, n - 1);
      assert StepAt(ops, bs, n - 1);
      StepCostsOk(bs[n - 1], ops[n - 1]);
    }
  }

  lemma StepCostsOk(b: Books, op: Op)
    requires CostsOk(b)
    ensures CostsOk(Apply(b, op))
  {
  }

  /** Over every run, removals included, the three views of a balance agree in every state. */
  lemma RunBalanceViewsAgree(ops: seq<Op>, bs: seq<Books>, n: nat, uid: nat, name: string, item: int, cost: int, now: int)
    requires IsRun(ops, bs) && n < |bs|
    ensures var b := bs[n]; var (b', ok, left) := Buy(b, uid, name, item, cost, now, true);
            && (CanBuy(b, uid, cost) <==> ok)
            && (ok ==> left == Left(b', uid))
            && Left(b, uid) == if Donated(b, uid) >= ConsumeSum(b, uid) then Donated(b, uid) - ConsumeSum(b, uid) else 0
  {
    RunCostsOk(ops, bs, n);
    BalanceViewsAgree(bs[n], uid, name, item, cost, now, true);
  }

  /** Removing a player leaves the purchases, so what was spent stays covered exactly when the
      player had spent nothing. */
  lemma RemoveUncovers(b: Books, uid: nat, historyGone: bool)
    requires DonateKeys(b) && CostsOk(b) && DonateInfo(b, uid).Some?
    ensures var c := Remove(b, uid, true, historyGone).0;
            ConsumeSum(c, uid) <= Donated(c, uid) <==> ConsumeSum(b, uid) == 0
  {
    AfterRemove(b, uid, uid);
    ConsumeSumNonNegative(b, uid);
    var c := b.(donates := Where(b.donates, NotDonateOf(uid)));
    assert DonateInfo(c, uid).None? && Donated(Remove(b, uid, true, historyGone).0, uid) == 0;
  }

  // Runs in which any write may fail.

  ghost predicate AmountsOk(b: Books)
  {
    forall r | r in b.history :: r.donate >= 0
  }

  /** What survives failing writes: unique keys, totals that never promise more than the history
      records, and purchases that never use more than the total. */
  ghost predicate Sound(b: Books)
  {
    && DonateKeys(b) && OrdersUnique(b) && CostsOk(b) && AmountsOk(b)
    && (forall uid: nat :: 0 <= Donated(b, uid) <= HistorySum(b, uid))
    && (forall uid: nat :: ConsumeSum(b, uid) <= Donated(b, uid))
  }

  /** Recording an order before its total is written keeps the books sound. */
  lemma RecordKeepsSound(b: Books, uid: nat, money: int, order: string, now: int)
    requires Sound(b) && money >= 0 && !Exists(b.history, HasOrder(order))
    ensures Sound(b.(history := b.history + [HistoryRow(uid, money, now, order)]))
  {
    var row := HistoryRow(uid, money, now, order);
    var h := b.(history := b.history + [row]);
    OrderRecorded(b, row);
    forall u: nat ensures HistorySum(h, u) >= HistorySum(b, u) && Donated(h, u) == Donated(b, u) && ConsumeSum(h, u) == ConsumeSum(b, u) {
      AfterRecord(b, row, u);
    }
  }

  lemma CreditKeepsSound(b: Books, uid: nat, money: int, order: string, now: int, recorded: bool, totalled: bool)
    requires Sound(b) && money >= 0
    requires SumsFit(Credit(b, uid, money, order, now, recorded, totalled).0)
    ensures Sound(Credit(b, uid, money, order, now, recorded, totalled).0)
  {
    if !Exists(b.history, HasOrder(order)) && recorded {
      RecordKeepsSound(b, uid, money, order, now);
      var row := HistoryRow(uid, money, now, order);
      var h := b.(history := b.history + [row]);
      AfterRecord(b, row, uid);
      if totalled {
        assert HistorySum(Credit(b, uid, money, order, now, recorded, totalled).0, uid) == HistorySum(h, uid);
        TotalKeepsSound(h, uid, money, now);
      }
    }
  }

  /** Writing the total that a credit computes keeps the books sound. */
  lemma TotalKeepsSound(h: Books, uid: nat, money: int, now: int)
    requires Sound(h) && 0 <= money <= HistorySum(h, uid) < TWO_31
    ensures match DonateInfo(h, uid)
            case None => Sound(h.(donates := h.donates + [DonateRow(uid, Column(money), now, 0)]))
            case Some(info) =>
              Sound(h.(donates := Updated(h.donates, DonateOf(uid), SetTotal(Column(HistorySum(h, uid)), now, info.expire))))
  {
    ColumnExact(money);
    ColumnExact(HistorySum(h, uid));
    match DonateInfo(h, uid)
    case None =>
      var r := DonateRow(uid, Column(money), now, 0);
      var c := h.(donates := h.donates + [r]);
      AfterInsertTotal(h, r, uid);
      forall u: nat ensures Donated(c, u) == if u == uid then money else Donated(h, u) {
        AfterInsertTotal(h, r, u);
      }
      assert forall u: nat :: ConsumeSum(c, u) == ConsumeSum(h, u) && HistorySum(c, u) == HistorySum(h, u);
    case Some(info) =>
      var total := Column(HistorySum(h, uid));
      var c := h.(donates := Updated(h.donates, DonateOf(uid), SetTotal(total, now, info.expire)));
      AfterUpdateTotal(h, uid, total, now, info.expire, uid);
      forall u: nat ensures Donated(c, u) == if u == uid then total else Donated(h, u) {
        AfterUpdateTotal(h, uid, total, now, info.expire, u);
      }
      assert forall u: nat :: ConsumeSum(c, u) == ConsumeSum(h, u) && HistorySum(c, u) == HistorySum(h, u);
  }

  lemma BuyKeepsSound(b: Books, uid: nat, name: string, item: int, cost: int, now: int, written: bool)
    requires Sound(b)
    ensures Sound(Buy(b, uid, name, item, cost, now, written).0)
  {
    var c := Buy(b, uid, name, item, cost, now, written).0;
    if c != b {
      var row := ConsumeRow(uid, name, item, cost, now);
      forall u: nat ensures ConsumeSum(c, u) <= Donated(c, u) && Donated(c, u) == Donated(b, u) && HistorySum(c, u) == HistorySum(b, u) {
        AfterConsume(b, row, u);
      }
    }
  }

  /** Over every run of credits and purchases, whichever single writes fail: order ids stay unique,
      no total exceeds what the history records, and nobody spends more than their total. */
  lemma {:induction false} RunStaysSound(ops: seq<Op>, bs: seq<Books>, n: nat)
    requires IsRun(ops, bs) && n < |bs|
    requires forall op | op in ops :: !op.Forget? && (op.Give? ==> op.money >= 0)
    requires forall b | b in bs :: SumsFit(b)
    ensures Sound(bs[n])
  {
    if n > 0 {
      RunStaysSound(ops, bs, n - 1);
      assert StepAt(ops, bs, n - 1);
      var b, op := bs[n - 1], ops[n - 1];
      assert SumsFit(bs[n]) && op in ops;
      match op
      case Give(uid, money, order, now, recorded, totalled) => CreditKeepsSound(b, uid, money, order, now, recorded, totalled);
      case Spend(uid, name, item, cost, now, written) => BuyKeepsSound(b, uid, name, item, cost, now, written);
    }
  }

  /** A successful credit brings the total level with the history exactly when the player had a
      total already or no recorded amounts; the branch for a new total writes only the new amount. */
  lemma CreditLevels(b: Books, uid: nat, money: int, order: string, now: int)
    requires DonateKeys(b) && !Exists(b.history, HasOrder(order))
    requires 0 <= money < TWO_31 && 0 <= HistorySum(b, uid) + money < TWO_31
    ensures var (b', result) := Credit(b, uid, money, order, now, true, true);
            && result == Credited
            && HistorySum(b', uid) == HistorySum(b, uid) + money
            && (Donated(b', uid) == HistorySum(b', uid) <==> DonateInfo(b, uid).Some? || HistorySum(b, uid) == 0)
  {
    var row := HistoryRow(uid, money, now, order);
    var h := b.(history := b.history + [row]);
    AfterRecord(b, row, uid);
    ColumnExact(money);
    ColumnExact(HistorySum(h, uid));
    match DonateInfo(h, uid)
    case None => AfterInsertTotal(h, DonateRow(uid, Column(money), now, 0), uid);
    case Some(info) => AfterUpdateTotal(h, uid, Column(HistorySum(h, uid)), now, info.expire, uid);
  }

  /** A credit on empty books that fails on the total. */
  lemma HalfDone(uid: nat, money: int, order: string, other: string)
    ensures var half := Books([], [HistoryRow(uid, money, 0, order)], []);
            && Credit(EMPTY, uid, money, order, 0, true, false) == (half, TotalFailed)
            && HistorySum(half, uid) == money && (Exists(half.history, HasOrder(other)) <==> order == other)
  {
    var row := HistoryRow(uid, money, 0, order);
    assert EMPTY.history + [row] == [row];
    AfterRecord(EMPTY, row, uid);
    assert HasOrder(other)(row) <==> order == other;
  }

  /** A total can stay behind the history although the last credit succeeded: for every player, amounts
      and order ids there is a run of two credits, the first of which failed on the total. */
  lemma HalfCredited(uid: nat, lost: int, money: int, first: string, second: string)
    returns (ops: seq<Op>, bs: seq<Books>)
    requires 0 < lost && 0 <= money && lost + money < TWO_31 && first != second
    ensures ops == [Give(uid, lost, first, 0, true, false), Give(uid, money, second, 0, true, true)] && IsRun(ops, bs)
    ensures Credit(bs[1], uid, money, second, 0, true, true).1 == Credited
    ensures Donated(bs[2], uid) == money && HistorySum(bs[2], uid) == lost + money
  {
    ops := [Give(uid, lost, first, 0, true, false), Give(uid, money, second, 0, true, true)];
    var half := Books([], [HistoryRow(uid, lost, 0, first)], []);
    bs := [EMPTY, half, Apply(half, ops[1])];
    HalfDone(uid, lost, first, second);
    FirstTotal(half, uid, money, second);
    assert StepAt(ops, bs, 0) && StepAt(ops, bs, 1);
  }

  /** A first total is the amount of the credit that writes it. */
  lemma FirstTotal(b: Books, uid: nat, money: int, order: string)
    requires DonateKeys(b) && DonateInfo(b, uid).None? && !Exists(b.history, HasOrder(order)) && 0 <= money < TWO_31
    ensures var (b', result) := Credit(b, uid, money, order, 0, true, true);
            result == Credited && Donated(b', uid) == money && HistorySum(b', uid) == HistorySum(b, uid) + money
  {
    var row := HistoryRow(uid, money, 0, order);
    AfterRecord(b, row, uid);
    ColumnExact(money);
    AfterInsertTotal(b.(history := b.history + [row]), DonateRow(uid, money, 0, 0), uid);
  }

  /** A credit that did not succeed can be sent again exactly when it failed on the history: after
      any other failure the order counts as used although the total was not raised. */
  lemma RetryAccepted(b: Books, uid: nat, money: int, order: string, now: int, recorded: bool, totalled: bool, later: int)
    ensures var (b', result) := Credit(b, uid, money, order, now, recorded, totalled);
            Credit(b', uid, money, order, later, true, true).1 == OrderUsed <==> result != HistoryFailed
  {
    var row := HistoryRow(uid, money, now, order);
    assert HasOrder(order)(row) && row in b.history + [row];
  }

  // Runs in which no write fails.

  predicate NoFailure(op: Op)
  {
    match op
    case Give(_, _, _, _, recorded, totalled) => recorded && totalled
    case Spend(_, _, _, _, _, written) => written
    case Forget(_, totalGone, historyGone) => totalGone && historyGone
  }

  /** Totals equal the recorded amounts for every player, of whatever sign the amounts are. */
  ghost predicate Level(b: Books)
  {
    DonateKeys(b) && forall uid: nat :: Donated(b, uid) == HistorySum(b, uid)
  }

  lemma {:induction false} RunStaysLevel(ops: seq<Op>, bs: seq<Books>, n: nat)
    requires IsRun(ops, bs) && n < |bs|
    requires forall op | op in ops :: NoFailure(op)
    requires forall b | b in bs :: SumsFit(b)
    ensures Level(bs[n])
  {
    if n > 0 {
      RunStaysLevel(ops, bs, n - 1);
      assert StepAt(ops, bs, n - 1);
      var b, op := bs[n - 1], ops[n - 1];
      assert op in ops && SumsFit(bs[n]) && SumsFit(b);
      match op
      case Give(uid, money, order, now, _, _) => CreditKeepsLevel(b, uid, money, order, now);
      case Spend(uid, name, item, cost, now, written) => BuyKeepsLevel(b, uid, name, item, cost, now, written);
      case Forget(uid, _, _) => RemoveKeepsLevel(b, uid);
    }
  }

  lemma RemoveKeepsLevel(b: Books, uid: nat)
    requires Level(b)
    ensures Level(Remove(b, uid, true, true).0)
  {
    var c := Remove(b, uid, true, true).0;
    AfterRemove(b, uid, uid);
    forall u: nat ensures Donated(c, u) == HistorySum(c, u) {
      AfterRemove(b, uid, u);
      assert DonateInfo(b, uid).Some? ==> DonateInfo(c, u) == DonateInfo(b.(donates := c.donates), u);
      assert DonateInfo(b, uid).Some? ==> HistorySum(c, u) == HistorySum(b.(history := c.history), u);
    }
  }

  lemma BuyKeepsLevel(b: Books, uid: nat, name: string, item: int, cost: int, now: int, written: bool)
    requires Level(b)
    ensures Level(Buy(b, uid, name, item, cost, now, written).0)
  {
    var c := Buy(b, uid, name, item, cost, now, written).0;
    forall u: nat ensures Donated(c, u) == HistorySum(c, u) {
      assert Donated(b, u) == HistorySum(b, u);
    }
  }

  lemma CreditKeepsLevel(b: Books, uid: nat, money: int, order: string, now: int)
    requires Level(b) && SumsFit(Credit(b, uid, money, order, now, true, true).0)
    ensures Level(Credit(b, uid, money, order, now, true, true).0)
  {
    if !Exists(b.history, HasOrder(order)) {
      var row := HistoryRow(uid, money, now, order);
      var h := b.(history := b.history + [row]);
      var c := Credit(b, uid, money, order, now, true, true).0;
      var total := HistorySum(h, uid);
      assert HistorySum(c, uid) == total;
      ColumnExact(total);
      forall u: nat ensures DonateKeys(c) && Donated(c, u) == HistorySum(c, u) {
        AfterRecord(b, row, u);
        AfterRecord(b, row, uid);
        match DonateInfo(h, uid)
        case None => AfterInsertTotal(h, DonateRow(uid, Column(money), now, 0), u);
        case Some(info) => AfterUpdateTotal(h, uid, Column(total), now, info.expire, u);
      }
    }
  }

  // Exactly once.

  function ApplyAll(b: Books, ops: seq<Op>): Books
    decreases |ops|
  {
    if ops == [] then b else ApplyAll(Apply(b, ops[0]), ops[1..])
  }

  /** The operations without the credits whose order id is in seen or came earlier. */
  function FirstOnly(ops: seq<Op>, seen: set<string>): seq<Op>
  {
    if ops == [] then []
    else if ops[0].Give? && ops[0].order in seen then FirstOnly(ops[1..], seen)
    else [ops[0]] + FirstOnly(ops[1..], if ops[0].Give? then seen + {ops[0].order} else seen)
  }

  ghost predicate Seen(b: Books, seen: set<string>)
  {
    forall order :: order in seen <==> Exists(b.history, HasOrder(order))
  }

  /** As long as every history insert is taken, sending orders again changes nothing: the books end
      up as if only the first credit with each order id had been sent, purchases in between included,
      and whether or not the totals could be written. */
  lemma {:induction false} ExactlyOnce(b: Books, ops: seq<Op>, seen: set<string>)
    requires Seen(b, seen) && forall op | op in ops :: !op.Forget? && (op.Give? ==> op.recorded)
    ensures ApplyAll(b, ops) == ApplyAll(b, FirstOnly(ops, seen))
    decreases |ops|
  {
    if ops != [] {
      var op, rest := ops[0], ops[1..];
      var next := Apply(b, op);
      if op.Give? && op.order in seen {
        assert next == b;
        ExactlyOnce(b, rest, seen);
      } else {
        var seen' := if op.Give? then seen + {op.order} else seen;
        SeenAfter(b, op, seen);
        ExactlyOnce(next, rest, seen');
        assert FirstOnly(ops, seen)[0] == op && FirstOnly(ops, seen)[1..] == FirstOnly(rest, seen');
      }
    }
  }

  lemma SeenAfter(b: Books, op: Op, seen: set<string>)
    requires Seen(b, seen) && !op.Forget? && (op.Give? ==> op.recorded && op.order !in seen)
    ensures Seen(Apply(b, op), if op.Give? then seen + {op.order} else seen)
  {
    if op.Give? {
      var row := HistoryRow(op.uid, op.money, op.now, op.order);
      assert Apply(b, op).history == b.history + [row];
      forall order ensures Exists(b.history + [row], HasOrder(order)) <==> Exists(b.history, HasOrder(order)) || order == op.order {
        if x :| x in b.history && HasOrder(order)(x) { assert x in b.history + [row]; }
        assert row in b.history + [row] && (HasOrder(order)(row) <==> order == op.order);
      }
    }
  }

  /** The amounts a player is credited by operations that repeat no order. */
  function Given(ops: seq<Op>, uid: nat): int
  {
    if ops == [] then 0
    else (if ops[0].Give? && ops[0].uid == uid then ops[0].money else 0) + Given(ops[1..], uid)
  }

  lemma {:induction false} HistoryGiven(b: Books, ops: seq<Op>, seen: set<string>, uid: nat)
    requires Seen(b, seen) && forall op | op in ops :: !op.Forget? && (op.Give? ==> op.recorded)
    ensures HistorySum(ApplyAll(b, ops), uid) == HistorySum(b, uid) + Given(FirstOnly(ops, seen), uid)
    decreases |ops|
  {
    if ops != [] {
      var op, rest := ops[0], ops[1..];
      if op.Give? && op.order in seen {
        assert Apply(b, op) == b;
        HistoryGiven(b, rest, seen, uid);
      } else {
        var seen' := if op.Give? then seen + {op.order} else seen;
        SeenAfter(b, op, seen);
        HistoryGiven(Apply(b, op), rest, seen', uid);
        assert FirstOnly(ops, seen)[0] == op && FirstOnly(ops, seen)[1..] == FirstOnly(rest, seen');
        if op.Give? {
          AfterRecord(b, HistoryRow(op.uid, op.money, op.now, op.order), uid);
          assert Apply(b, op).history == b.history + [HistoryRow(op.uid, op.money, op.now, op.order)];
        }
      }
    }
  }

  lemma {:induction false} RunIsApplyAll(ops: seq<Op>, bs: seq<Books>, n: nat)
    requires IsRun(ops, bs) && n <= |ops|
    ensures bs[n] == ApplyAll(EMPTY, ops[..n])
  {
    if n > 0 {
      RunIsApplyAll(ops, bs, n - 1);
      assert StepAt(ops, bs, n - 1);
      assert ops[..n] == ops[..n - 1] + [ops[n - 1]];
      ApplyAllAppend(EMPTY, ops[..n - 1], ops[n - 1]);
    }
  }

  lemma {:induction false} ApplyAllAppend(b: Books, ops: seq<Op>, op: Op)
    ensures ApplyAll(b, ops + [op]) == Apply(ApplyAll(b, ops), op)
    decreases |ops|
  {
    if ops != [] {
      assert (ops + [op])[1..] == ops[1..] + [op];
      ApplyAllAppend(Apply(b, ops[0]), ops[1..], op);
    } else {
      assert (ops + [op])[1..] == [];
    }
  }

  /** With no write failing, a player's total is at all times the sum of the amounts of the distinct
      orders sent for the player so far, whatever was repeated and bought in between. */
  lemma TotalIsDistinctOrders(ops: seq<Op>, bs: seq<Books>, n: nat, uid: nat)
    requires IsRun(ops, bs) && n <= |ops|
    requires forall op | op in ops :: !op.Forget? && NoFailure(op)
    requires forall b | b in bs :: SumsFit(b)
    ensures Donated(bs[n], uid) == Given(FirstOnly(ops[..n], {}), uid)
  {
    RunStaysLevel(ops, bs, n);
    RunIsApplyAll(ops, bs, n);
    assert Seen(EMPTY, {});
    assert forall op | op in ops[..n] :: op in ops && NoFailure(op) && !op.Forget?;
    HistoryGiven(EMPTY, ops[..n], {}, uid);
  }
}
