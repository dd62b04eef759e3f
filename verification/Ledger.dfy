/** The donation ledger: userdonate holds a total per player, userdonatehistory every order credited,
    userdonateconsume every purchase. Crediting and buying are sequences of statements without a
    transaction, any of whose writes may fail and leave its table as it was. */
module Ledger {
  import opened GoInts
  import opened Tables

  datatype DonateRow = DonateRow(uid: nat, donate: int, last: int, expire: int)

  datatype HistoryRow = HistoryRow(uid: nat, donate: int, time: int, order: string)

  datatype ConsumeRow = ConsumeRow(uid: nat, name: string, item: int, cost: int, time: int)

  datatype Books = Books(donates: seq<DonateRow>, history: seq<HistoryRow>, consumes: seq<ConsumeRow>)

  // Columns and clauses.

  function DonateUid(): DonateRow -> nat { (r: DonateRow) => r.uid }

  function OrderOf(): HistoryRow -> string { (r: HistoryRow) => r.order }

  function DonateOf(uid: nat): DonateRow -> bool { (r: DonateRow) => r.uid == uid }

  function NotDonateOf(uid: nat): DonateRow -> bool { (r: DonateRow) => r.uid != uid }

  function NotHistoryOf(uid: nat): HistoryRow -> bool { (r: HistoryRow) => r.uid != uid }

  function HasOrder(order: string): HistoryRow -> bool { (r: HistoryRow) => r.order == order }

  function SetTotal(total: int, now: int, expire: int): DonateRow -> DonateRow {
    (r: DonateRow) => r.(donate := total, last := now, expire := expire)
  }

  function Amount(uid: nat): HistoryRow -> int { (r: HistoryRow) => if r.uid == uid then r.donate else 0 }

  function Cost(uid: nat): ConsumeRow -> int { (r: ConsumeRow) => if r.uid == uid then r.cost else 0 }

  // Queries.

  function DonateInfo(b: Books, uid: nat): Option<DonateRow>
  {
    First(Where(b.donates, DonateOf(uid)))
  }

  function HistorySum(b: Books, uid: nat): int
  {
    SumBy(b.history, Amount(uid))
  }

  function ConsumeSum(b: Books, uid: nat): int
  {
    SumBy(b.consumes, Cost(uid))
  }

  /** The player's total; 0 without a row. */
  function Donated(b: Books, uid: nat): int
  {
    match DonateInfo(b, uid)
    case Some(r) => r.donate
    case None => 0
  }

  /** What a total becomes on its way into the table: cut to int32, then printed as uint64. */
  function Column(total: int): int
  {
    var narrow := Int32(total);
    if narrow < 0 then narrow + TWO_32 * TWO_32 else narrow
  }

  /** The table gets the total itself exactly when it is not negative and fits in int32. */
  lemma ColumnExact(total: int)
    requires -TWO_31 * TWO_32 <= total < TWO_31 * TWO_32
    ensures Column(total) == total <==> 0 <= total < TWO_31
  {
  }

  // Crediting.

  datatype CreditResult = OrderUsed | HistoryFailed | TotalFailed | Credited

  /** Credits an order. recorded and totalled say whether the two writes are taken. */
  function Credit(b: Books, uid: nat, money: int, order: string, now: int, recorded: bool, totalled: bool)
    : (Books, CreditResult)
  {
    if Exists(b.history, HasOrder(order)) then (b, OrderUsed)
    else if !recorded then (b, HistoryFailed)
    else
      var h := b.(history := b.history + [HistoryRow(uid, money, now, order)]);
      if !totalled then (h, TotalFailed)
      else
        match DonateInfo(h, uid)
        case None => (h.(donates := h.donates + [DonateRow(uid, Column(money), now, 0)]), Credited)
        case Some(info) =>
          (h.(donates := Updated(h.donates, DonateOf(uid), SetTotal(Column(HistorySum(h, uid)), now, info.expire))),
           Credited)
  }

  // Spending.

  const NEGATIVE_COST := -1
  const NO_DONATION := -2
  const NOT_ENOUGH := -3
  const NOT_WRITTEN := -4

  /** Buys an item; on success the number is what is left, otherwise the reason. */
  function Buy(b: Books, uid: nat, name: string, item: int, cost: int, now: int, written: bool): (Books, bool, int)
  {
    if cost < 0 then (b, false, NEGATIVE_COST)
    else match DonateInfo(b, uid)
      case None => (b, false, NO_DONATION)
      case Some(info) =>
        var left := info.donate - ConsumeSum(b, uid);
        if left < cost then (b, false, NOT_ENOUGH)
        else if !written then (b, false, NOT_WRITTEN)
        else (b.(consumes := b.consumes + [ConsumeRow(uid, name, item, cost, now)]), true, left - cost)
  }

  predicate CanBuy(b: Books, uid: nat, cost: int)
  {
    cost >= 0 && DonateInfo(b, uid).Some? && cost <= DonateInfo(b, uid).value.donate - ConsumeSum(b, uid)
  }

  function Left(b: Books, uid: nat): int
  {
    match DonateInfo(b, uid)
    case None => 0
    case Some(info) => if info.donate - ConsumeSum(b, uid) >= 0 then info.donate - ConsumeSum(b, uid) else 0
  }

  /** Removes a player's total and history, but not the purchases; the two deletes may fail. */
  function Remove(b: Books, uid: nat, totalGone: bool, historyGone: bool): (Books, bool)
  {
    if DonateInfo(b, uid).None? then (b, true)
    else if !totalGone then (b, false)
    else
      var d := b.(donates := Where(b.donates, NotDonateOf(uid)));
      if !historyGone then (d, false)
      else (d.(history := Where(d.history, NotHistoryOf(uid))), true)
  }

  // What the tables promise.

  /** uid is the primary key of userdonate. */
  ghost predicate DonateKeys(b: Books)
  {
    DistinctBy(b.donates, DonateUid())
  }

  ghost predicate OrdersUnique(b: Books)
  {
    DistinctBy(b.history, OrderOf())
  }

  ghost predicate CostsOk(b: Books)
  {
    forall r | r in b.consumes :: r.cost >= 0
  }

  /** The queries over one player after each kind of write. */
  lemma AfterRecord(b: Books, r: HistoryRow, uid: nat)
    ensures HistorySum(b.(history := b.history + [r]), uid) == HistorySum(b, uid) + if r.uid == uid then r.donate else 0
  {
    SumAppend(b.history, r, Amount(uid));
  }

  lemma AfterConsume(b: Books, r: ConsumeRow, uid: nat)
    ensures ConsumeSum(b.(consumes := b.consumes + [r]), uid) == ConsumeSum(b, uid) + if r.uid == uid then r.cost else 0
  {
    SumAppend(b.consumes, r, Cost(uid));
  }

  lemma FindsRow(b: Books, r: DonateRow)
    requires DonateKeys(b) && r in b.donates
    ensures DonateInfo(b, r.uid) == Some(r)
  {
    var f := DonateInfo(b, r.uid);
    assert DonateOf(r.uid)(r);
    var i :| 0 <= i < |b.donates| && b.donates[i] == r;
    var j :| 0 <= j < |b.donates| && b.donates[j] == f.value;
    assert DonateUid()(b.donates[i]) == DonateUid()(b.donates[j]);
  }

  lemma AfterInsertTotal(b: Books, r: DonateRow, uid: nat)
    requires DonateKeys(b) && DonateInfo(b, r.uid).None?
    ensures var c := b.(donates := b.donates + [r]);
            DonateKeys(c) && DonateInfo(c, uid) == if r.uid == uid then Some(r) else DonateInfo(b, uid)
  {
    var c := b.(donates := b.donates + [r]);
    forall i, j | 0 <= i < j < |c.donates| ensures DonateUid()(c.donates[i]) != DonateUid()(c.donates[j]) {
      if j == |b.donates| {
        assert c.donates[i] in b.donates;
        assert DonateOf(r.uid)(c.donates[i]) <==> c.donates[i].uid == r.uid;
      } else {
        assert DonateUid()(b.donates[i]) != DonateUid()(b.donates[j]);
      }
    }
    WhereAppend(b.donates, r, DonateOf(uid));
  }

  lemma AfterUpdateTotal(b: Books, key: nat, total: int, now: int, expire: int, uid: nat)
    requires DonateKeys(b) && DonateInfo(b, key).Some?
    ensures var c := b.(donates := Updated(b.donates, DonateOf(key), SetTotal(total, now, expire)));
            && DonateKeys(c)
            && DonateInfo(c, uid) == if uid == key then Some(DonateRow(key, total, now, expire)) else DonateInfo(b, uid)
  {
    var c := b.(donates := Updated(b.donates, DonateOf(key), SetTotal(total, now, expire)));
    forall i, j | 0 <= i < j < |c.donates| ensures DonateUid()(c.donates[i]) != DonateUid()(c.donates[j]) {
      assert DonateUid()(b.donates[i]) != DonateUid()(b.donates[j]);
    }
    match DonateInfo(b, uid)
    case Some(r) =>
      assert DonateOf(uid)(r);
      var i :| 0 <= i < |b.donates| && b.donates[i] == r;
      FindsRow(c, c.donates[i]);
    case None =>
      forall r | r in c.donates ensures !DonateOf(uid)(r) {
        var i :| 0 <= i < |c.donates| && c.donates[i] == r;
        assert b.donates[i] in b.donates;
      }
  }

  /** Deleting a player's total and history leaves the other players' as they were. */
  lemma AfterRemove(b: Books, key: nat, uid: nat)
    requires DonateKeys(b)
    ensures var c := b.(donates := Where(b.donates, NotDonateOf(key)));
            DonateKeys(c) && DonateInfo(c, uid) == if uid == key then None else DonateInfo(b, uid)
    ensures HistorySum(b.(history := Where(b.history, NotHistoryOf(key))), uid) == if uid == key then 0 else HistorySum(b, uid)
  {
    var c := b.(donates := Where(b.donates, NotDonateOf(key)));
    WhereDistinct(b.donates, NotDonateOf(key), DonateUid());
    if uid == key {
      forall r | r in c.donates ensures !DonateOf(uid)(r) { assert NotDonateOf(key)(r); }
      SumZero(Where(b.history, NotHistoryOf(key)), uid);
    } else {
      if DonateInfo(b, uid).Some? {
        var r := DonateInfo(b, uid).value;
        assert DonateOf(uid)(r) && NotDonateOf(key)(r);
        FindsRow(c, r);
      } else {
        assert forall r | r in c.donates :: !DonateOf(uid)(r);
      }
      SumWhere(b.history, NotHistoryOf(key), Amount(uid));
    }
  }

  lemma {:induction false} SumZero(rows: seq<HistoryRow>, uid: nat)
    requires forall r | r in rows :: r.uid != uid
    ensures SumBy(rows, Amount(uid)) == 0
  {
    if rows != [] {
      SumZero(rows[1..], uid);
    }
  }

  lemma OrderRecorded(b: Books, r: HistoryRow)
    requires OrdersUnique(b)
    ensures OrdersUnique(b.(history := b.history + [r])) <==> !Exists(b.history, HasOrder(r.order))
  {
    var h := b.history + [r];
    if x :| x in b.history && HasOrder(r.order)(x) {
      var i :| 0 <= i < |b.history| && b.history[i] == x;
      assert OrderOf()(h[i]) == OrderOf()(h[|b.history|]);
    } else {
      forall i, j | 0 <= i < j < |h| ensures OrderOf()(h[i]) != OrderOf()(h[j]) {
        if j < |b.history| {
          assert OrderOf()(b.history[i]) != OrderOf()(b.history[j]);
        } else {
          assert h[i] in b.history && !HasOrder(r.order)(h[i]);
        }
      }
    }
  }

  // Three views of one balance.

  /** In every state, overdrawn ones included, the checks and the balance tell the same story: the
      check passes exactly when the purchase is not refused, a purchase's answer is the next
      balance, and the balance is what was donated less what was consumed, cut off at 0. */
  lemma BalanceViewsAgree(b: Books, uid: nat, name: string, item: int, cost: int, now: int, written: bool)
    requires CostsOk(b)
    ensures var (b', ok, n) := Buy(b, uid, name, item, cost, now, written);
            && (CanBuy(b, uid, cost) <==> ok || n == NOT_WRITTEN)
            && (!CanBuy(b, uid, cost) <==> !ok && n in {NEGATIVE_COST, NO_DONATION, NOT_ENOUGH})
            && (ok ==> n == Left(b', uid) == Left(b, uid) - cost)
            && (!ok ==> b' == b)
            && (CanBuy(b, uid, cost) ==> cost <= Left(b, uid))
    ensures Left(b, uid) == if Donated(b, uid) >= ConsumeSum(b, uid) then Donated(b, uid) - ConsumeSum(b, uid) else 0
  {
    ConsumeSumNonNegative(b, uid);
    var row := ConsumeRow(uid, name, item, cost, now);
    AfterConsume(b, row, uid);
    assert DonateInfo(b.(consumes := b.consumes + [row]), uid) == DonateInfo(b, uid);
  }

  lemma ConsumeSumNonNegative(b: Books, uid: nat)
    requires CostsOk(b)
    ensures ConsumeSum(b, uid) >= 0
  {
    SumNonNegative(b.consumes, Cost(uid));
  }
}
