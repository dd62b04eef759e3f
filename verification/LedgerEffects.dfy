/** What each ledger operation answers and writes, row by row, and for which player. */
module LedgerEffects {
  import opened GoInts
  import opened Tables
  import opened Ledger

  /** The history has the order. */
  ghost predicate Used(b: Books, order: string)
  {
    exists r :: r in b.history && r.order == order
  }

  ghost predicate HasTotal(b: Books, uid: nat)
  {
    exists r :: r in b.donates && r.uid == uid
  }

  lemma {:induction false} UsedExactly(b: Books, order: string)
    ensures Exists(b.history, HasOrder(order)) <==> Used(b, order)
  {
    if r :| r in b.history && r.order == order {
      assert HasOrder(order)(r);
    }
    if Exists(b.history, HasOrder(order)) {
      var r :| r in b.history && HasOrder(order)(r);
      assert r.order == order;
    }
  }

  lemma {:induction false} HasTotalExactly(b: Books, uid: nat)
    ensures DonateInfo(b, uid).Some? <==> HasTotal(b, uid)
    ensures DonateInfo(b, uid).Some? ==> DonateInfo(b, uid).value in b.donates && DonateInfo(b, uid).value.uid == uid
  {
    if r :| r in b.donates && r.uid == uid {
      assert DonateOf(uid)(r);
    }
    assert DonateInfo(b, uid).Some? ==> DonateOf(uid)(DonateInfo(b, uid).value);
  }

  // Crediting.

  /** A credit answers what happened: the order was used, its record failed, its total failed, or
      both writes were taken; and it records the order exactly as sent in the last two cases. */
  lemma {:induction false} CreditExactly(b: Books, uid: nat, money: int, order: string, now: int, recorded: bool, totalled: bool)
    ensures var (b', result) := Credit(b, uid, money, order, now, recorded, totalled);
            && (result == OrderUsed <==> Used(b, order))
            && (result == HistoryFailed <==> !Used(b, order) && !recorded)
            && (result == TotalFailed <==> !Used(b, order) && recorded && !totalled)
            && (result == Credited <==> !Used(b, order) && recorded && totalled)
            && b'.history == b.history + (if !Used(b, order) && recorded then [HistoryRow(uid, money, now, order)] else [])
            && b'.consumes == b.consumes
            && (result != Credited ==> b'.donates == b.donates)
  {
    UsedExactly(b, order);
  }

  /** The total that a credit writes once its order is recorded, as some player sees it. */
  lemma {:induction false} TotalWritten(h: Books, uid: nat, money: int, now: int, u: nat)
    requires DonateKeys(h)
    ensures var rows := match DonateInfo(h, uid)
                        case None => h.donates + [DonateRow(uid, Column(money), now, 0)]
                        case Some(info) => Updated(h.donates, DonateOf(uid), SetTotal(Column(HistorySum(h, uid)), now, info.expire));
            var c := h.(donates := rows);
            && DonateKeys(c)
            && DonateInfo(c, u) ==
               if u != uid then DonateInfo(h, u)
               else match DonateInfo(h, uid)
                 case None => Some(DonateRow(uid, Column(money), now, 0))
                 case Some(info) => Some(DonateRow(uid, Column(HistorySum(h, uid)), now, info.expire))
  {
    match DonateInfo(h, uid)
    case None => AfterInsertTotal(h, DonateRow(uid, Column(money), now, 0), u);
    case Some(info) => AfterUpdateTotal(h, uid, Column(HistorySum(h, uid)), now, info.expire, u);
  }

  /** A credit that succeeded leaves the player a total written now: the recorded sum, new amount
      included, if there was a total, with its expiry, and else the new amount; nobody else's changes. */
  lemma {:induction false} CreditedTotal(b: Books, uid: nat, money: int, order: string, now: int, u: nat)
    requires DonateKeys(b) && !Used(b, order)
    ensures var b' := Credit(b, uid, money, order, now, true, true).0;
            && DonateKeys(b')
            && HistorySum(b', u) == HistorySum(b, u) + (if u == uid then money else 0)
            && DonateInfo(b', u) ==
               if u != uid then DonateInfo(b, u)
               else match DonateInfo(b, uid)
                 case None => Some(DonateRow(uid, Column(money), now, 0))
                 case Some(info) => Some(DonateRow(uid, Column(HistorySum(b, uid) + money), now, info.expire))
  {
    UsedExactly(b, order);
    var row := HistoryRow(uid, money, now, order);
    var h := b.(history := b.history + [row]);
    AfterRecord(b, row, uid);
    AfterRecord(b, row, u);
    assert DonateInfo(h, uid) == DonateInfo(b, uid) && DonateInfo(h, u) == DonateInfo(b, u);
    TotalWritten(h, uid, money, now, u);
    assert HistorySum(Credit(b, uid, money, order, now, true, true).0, u) == HistorySum(h, u);
  }

  // Spending.

  /** A purchase answers -1 for a negative cost, -2 without a total, -3 when the rest does not cover
      the cost, -4 when it cannot be recorded, and else what is left; it is recorded exactly as asked
      for in the last case and changes nothing otherwise. */
  lemma {:induction false} BuyExactly(b: Books, uid: nat, name: string, item: int, cost: int, now: int, written: bool)
    ensures var (b', ok, n) := Buy(b, uid, name, item, cost, now, written);
            var rest := Donated(b, uid) - ConsumeSum(b, uid);
            && (!ok && n == -1 <==> cost < 0)
            && (!ok && n == -2 <==> cost >= 0 && !HasTotal(b, uid))
            && (!ok && n == -3 <==> cost >= 0 && HasTotal(b, uid) && rest < cost)
            && (!ok && n == -4 <==> cost >= 0 && HasTotal(b, uid) && rest >= cost && !written)
            && (ok <==> cost >= 0 && HasTotal(b, uid) && rest >= cost && written)
            && (ok ==> n == rest - cost)
            && b' == b.(consumes := b.consumes + if ok then [ConsumeRow(uid, name, item, cost, now)] else [])
  {
    HasTotalExactly(b, uid);
  }

  /** The check passes exactly if the cost is not negative and the player's rest covers it. */
  lemma {:induction false} CanBuyExactly(b: Books, uid: nat, cost: int)
    ensures CanBuy(b, uid, cost) <==>
            cost >= 0 && HasTotal(b, uid) && cost <= Donated(b, uid) - ConsumeSum(b, uid)
  {
    HasTotalExactly(b, uid);
  }

  // Removing.

  lemma {:induction false} RemoveExactly(b: Books, uid: nat, totalGone: bool, historyGone: bool)
    ensures var (b', ok) := Remove(b, uid, totalGone, historyGone);
            && (ok <==> !HasTotal(b, uid) || (totalGone && historyGone))
            && b'.consumes == b.consumes
            && (forall r :: r in b'.donates <==> r in b.donates && !(totalGone && r.uid == uid))
            && (forall r :: r in b'.history <==>
                  r in b.history && !(HasTotal(b, uid) && totalGone && historyGone && r.uid == uid))
  {
    HasTotalExactly(b, uid);
    forall r: DonateRow ensures NotDonateOf(uid)(r) <==> r.uid != uid {}
    forall r: HistoryRow ensures NotHistoryOf(uid)(r) <==> r.uid != uid {}
  }

  /** Removing one player leaves every other player's total, history and purchases; the player's own
      total and history go only as far as the deletes are taken. */
  lemma {:induction false} RemoveSparesOthers(b: Books, uid: nat, totalGone: bool, historyGone: bool, u: nat)
    requires DonateKeys(b)
    ensures var b' := Remove(b, uid, totalGone, historyGone).0;
            && ConsumeSum(b', u) == ConsumeSum(b, u)
            && (u != uid ==> DonateInfo(b', u) == DonateInfo(b, u) && HistorySum(b', u) == HistorySum(b, u))
            && (HasTotal(b, uid) && totalGone ==> DonateInfo(b', uid) == None)
            && (HasTotal(b, uid) && totalGone && historyGone ==> HistorySum(b', uid) == 0)
            && (!HasTotal(b, uid) || !totalGone ==> b' == b)
            && (!historyGone ==> b'.history == b.history)
  {
    HasTotalExactly(b, uid);
    AfterRemove(b, uid, uid);
    AfterRemove(b, uid, u);
    var d := b.(donates := Where(b.donates, NotDonateOf(uid)));
    var h := d.(history := Where(b.history, NotHistoryOf(uid)));
    assert DonateInfo(h, u) == DonateInfo(d, u) && DonateInfo(h, uid) == DonateInfo(d, uid);
    assert HistorySum(h, u) == HistorySum(b.(history := h.history), u);
    assert HistorySum(h, uid) == HistorySum(b.(history := h.history), uid);
  }
}
