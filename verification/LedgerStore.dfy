/** The ledger code over the tables it updates in place, one statement at a time. */
module LedgerStore {
  import opened Tables
  import opened Ledger
  import opened LedgerEffects

  class LedgerTables {
    var donates: seq<DonateRow>
    var history: seq<HistoryRow>
    var consumes: seq<ConsumeRow>

    constructor ()
      ensures Abs() == Books([], [], [])
    {
      donates, history, consumes := [], [], [];
    }

    function Abs(): Books
      reads this
    {
      Books(donates, history, consumes)
    }

    method GetUserDonateInfo(uid: nat) returns (info: Option<DonateRow>)
      ensures info == DonateInfo(Abs(), uid)
    {
      info := First(Where(donates, DonateOf(uid)));
    }

    /** Credits an order; the statements before a failing one stay done. */
    method IncUserDonateInfo(uid: nat, money: int, order: string, now: int, recorded: bool, totalled: bool)
      returns (result: CreditResult)
      modifies this
      ensures (Abs(), result) == Credit(old(Abs()), uid, money, order, now, recorded, totalled)
      ensures result == OrderUsed <==> exists r :: r in old(history) && r.order == order
      ensures result == HistoryFailed <==> result != OrderUsed && !recorded
      ensures result == TotalFailed <==> result != OrderUsed && recorded && !totalled
      ensures result != Credited ==> donates == old(donates)
    {
      CreditExactly(Abs(), uid, money, order, now, recorded, totalled);
      if Exists(history, HasOrder(order)) {
        return OrderUsed;
      }
      if !recorded {
        return HistoryFailed;
      }
      history := history + [HistoryRow(uid, money, now, order)];
      var known := Exists(donates, DonateOf(uid));
      var info := GetUserDonateInfo(uid);
      assert known <==> info.Some?;
      if !known {
        if !totalled {
          return TotalFailed;
        }
        donates := donates + [DonateRow(uid, Column(money), now, 0)];
        return Credited;
      } else {
        var sum := SumBy(history, Amount(uid));
        if !totalled {
          return TotalFailed;
        }
        donates := Updated(donates, DonateOf(uid), SetTotal(Column(sum), now, info.value.expire));
        return Credited;
      }
    }

    method OnConsumeDonate(uid: nat, name: string, item: int, cost: int, now: int, written: bool) returns (ok: bool, n: int)
      modifies this
      ensures (Abs(), ok, n) == Buy(old(Abs()), uid, name, item, cost, now, written)
      ensures consumes == old(consumes) + if ok then [ConsumeRow(uid, name, item, cost, now)] else []
      ensures donates == old(donates) && history == old(history)
    {
      if cost < 0 {
        return false, NEGATIVE_COST;
      }
      var info := GetUserDonateInfo(uid);
      if info.None? {
        return false, NO_DONATION;
      }
      var spent := SumBy(consumes, Cost(uid));
      var left := info.value.donate - spent;
      if left < cost {
        return false, NOT_ENOUGH;
      }
      if !written {
        return false, NOT_WRITTEN;
      }
      consumes := consumes + [ConsumeRow(uid, name, item, cost, now)];
      return true, left - cost;
    }

    method CheckConsumeDonate(uid: nat, cost: int) returns (ok: bool)
      ensures ok <==> CanBuy(Abs(), uid, cost)
    {
      if cost < 0 {
        return false;
      }
      var info := GetUserDonateInfo(uid);
      if info.None? {
        return false;
      }
      var spent := SumBy(consumes, Cost(uid));
      var left := info.value.donate - spent;
      if left < cost {
        return false;
      }
      return true;
    }

    method GetUserDonateLeft(uid: nat) returns (left: int)
      requires CostsOk(Abs())
      ensures left == Left(Abs(), uid)
      ensures left == if Donated(Abs(), uid) >= ConsumeSum(Abs(), uid) then Donated(Abs(), uid) - ConsumeSum(Abs(), uid) else 0
    {
      ConsumeSumNonNegative(Abs(), uid);
      var info := GetUserDonateInfo(uid);
      if info.None? {
        return 0;
      }
      var used := SumBy(consumes, Cost(uid));
      left := info.value.donate - used;
      if left >= 0 {
        return left;
      }
      return 0;
    }

    method RemoveUserDonateInfo(uid: nat, totalGone: bool, historyGone: bool) returns (ok: bool)
      modifies this
      ensures (Abs(), ok) == Remove(old(Abs()), uid, totalGone, historyGone)
    {
      var info := GetUserDonateInfo(uid);
      if info.Some? {
        if !totalGone {
          return false;
        }
        donates := Where(donates, NotDonateOf(uid));
        if !historyGone {
          return false;
        }
        history := Where(history, NotHistoryOf(uid));
        return true;
      }
      return true;
    }
  }
}
