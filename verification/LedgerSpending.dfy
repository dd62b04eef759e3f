/** What purchases and credits that interleave can do to a player's balance: how far spending can
    get ahead of the total, and exactly which write makes a total fall. */
module LedgerSpending {
  import opened Tables
  import opened Ledger
  import opened LedgerInterleaving

  // What purchases in flight can overspend.

  /** The cost a buyer has been passed for but has not recorded. */
  function PendingCost(uid: nat): Thread -> int {
    (t: Thread) => if t.Buyer? && t.uid == uid && t.buying.Passed? then t.cost else 0
  }

  function IsPassed(uid: nat): Thread -> int {
    (t: Thread) => if t.Buyer? && t.uid == uid && t.buying.Passed? then 1 else 0
  }

  /** What the player has spent and will have spent once every passed purchase is recorded. */
  function Committed(s: State, uid: nat): int
  {
    ConsumeSum(s.b, uid) + SumBy(s.threads, PendingCost(uid))
  }

  /** How many purchases of the player have passed their check and not been recorded yet. */
  function InFlight(s: State, uid: nat): int
  {
    SumBy(s.threads, IsPassed(uid))
  }

  /** No purchase of the player costs more than most. */
  ghost predicate CostsAtMost(s: State, uid: nat, most: int)
  {
    forall t | t in s.threads && t.Buyer? && t.uid == uid :: t.cost <= most
  }

  lemma {:induction false} PendingAtMost(threads: seq<Thread>, uid: nat, most: nat)
    requires forall t | t in threads && t.Buyer? && t.uid == uid :: t.cost <= most
    ensures SumBy(threads, PendingCost(uid)) <= most * SumBy(threads, IsPassed(uid))
    ensures 0 <= SumBy(threads, IsPassed(uid))
  {
    if threads != [] {
      PendingAtMost(threads[1..], uid, most);
      var rest := SumBy(threads[1..], IsPassed(uid));
      assert most * (1 + rest) == most + most * rest;
    }
  }

  /** Buyer i of the player is about to compare its cost with the total it has read. */
  predicate Checks(s: State, m: Move, uid: nat)
  {
    && m.Go? && m.i < |s.threads| && s.threads[m.i].Buyer? && s.threads[m.i].uid == uid
    && s.threads[m.i].buying.HasTotal?
  }

  /** What one thread's step does to the purchases of a player, in the thread and in the books. */
  lemma {:induction false} SpentAfter(b: Books, t: Thread, ok: bool, now: int, uid: nat)
    ensures var (b', t') := StepThread(b, t, ok, now);
            var recorded := ConsumeSum(b', uid) - ConsumeSum(b, uid);
            var pending := PendingCost(uid)(t') - PendingCost(uid)(t);
            var passed := IsPassed(uid)(t') - IsPassed(uid)(t);
            if t.Buyer? && t.uid == uid && t.buying.HasTotal? then
              && recorded == 0
              && (ConsumeSum(b, uid) + t.cost <= t.buying.total ==> pending == t.cost && passed == 1)
              && (ConsumeSum(b, uid) + t.cost > t.buying.total ==> pending == passed == 0)
            else if t.Buyer? && t.uid == uid && t.buying.Passed? then
              passed == -1 && recorded + pending == if ok then 0 else -t.cost
            else recorded == pending == passed == 0
  {
    if t.Buyer? && t.buying.Passed? && ok {
      AfterConsume(b, ConsumeRow(t.uid, t.name, t.item, t.cost, now), uid);
    } else {
      assert StepThread(b, t, ok, now).0.consumes == b.consumes;
    }
  }

  /** The check comes out in favour of the purchase. */
  predicate Passes(s: State, m: Move, uid: nat)
  {
    Checks(s, m, uid) && ConsumeSum(s.b, uid) + s.threads[m.i].cost <= s.threads[m.i].buying.total
  }

  /** A purchase of the player that has passed its check takes its last step. */
  predicate Leaves(s: State, m: Move, uid: nat)
  {
    && m.Go? && m.i < |s.threads| && s.threads[m.i].Buyer? && s.threads[m.i].uid == uid
    && s.threads[m.i].buying.Passed?
  }

  /** How one move changes what is committed for a player: passing a check adds the cost, and failing
      to record a purchase takes it back. */
  lemma {:induction false} CommittedAfter(s: State, m: Move, uid: nat)
    requires Inv(s) && Enabled(s, m)
    ensures var u := Next(s, m);
            && Committed(u, uid) == Committed(s, uid) + (if Passes(s, m, uid) then s.threads[m.i].cost
                                                         else if Leaves(s, m, uid) && !m.ok then -s.threads[m.i].cost else 0)
            && InFlight(u, uid) == InFlight(s, uid) + (if Passes(s, m, uid) then 1 else if Leaves(s, m, uid) then -1 else 0)
  {
    match m
    case Start(t) =>
      SumAppend(s.threads, t, PendingCost(uid));
      SumAppend(s.threads, t, IsPassed(uid));
    case Go(i, ok, now) =>
      var t := s.threads[i];
      SumReplace(s.threads, i, StepThread(s.b, t, ok, now).1, PendingCost(uid));
      SumReplace(s.threads, i, StepThread(s.b, t, ok, now).1, IsPassed(uid));
      SpentAfter(s.b, t, ok, now, uid);
  }

  lemma TimesMonotone(a: int, b: int, most: nat)
    requires a <= b
    ensures most * a <= most * b
  {
  }

  /** Every purchase of the player costs at most most, and all but one of those in flight together
      cost at most extra. */
  ghost predicate Within(s: State, uid: nat, most: nat, extra: int)
  {
    CostsAtMost(s, uid, most) && most * (InFlight(s, uid) - 1) <= extra
  }

  lemma WithinBound(s: State, uid: nat, k: nat, most: nat)
    requires k >= 1 && InFlight(s, uid) <= k && CostsAtMost(s, uid, most)
    ensures Within(s, uid, most, most * (k - 1))
  {
    TimesMonotone(InFlight(s, uid) - 1, k - 1, most);
  }

  /** No purchase of the player has read a total above cap. */
  ghost predicate ReadsBelow(s: State, uid: nat, cap: int)
  {
    forall t | t in s.threads && t.Buyer? && t.uid == uid && t.buying.HasTotal? :: t.buying.total <= cap
  }

  lemma NextReadsBelow(s: State, m: Move, uid: nat, cap: int)
    requires Enabled(s, m) && ReadsBelow(s, uid, cap) && Donated(s.b, uid) <= cap
    ensures ReadsBelow(Next(s, m), uid, cap)
  {
    var u := Next(s, m);
    forall t | t in u.threads && t.Buyer? && t.uid == uid && t.buying.HasTotal? ensures t.buying.total <= cap {
      var j :| 0 <= j < |u.threads| && u.threads[j] == t;
      assert j < |s.threads| ==> s.threads[j] in s.threads;
    }
  }

  /** One move keeps what is committed within cap and what the other purchases in flight may cost. */
  lemma {:induction false} CommittedStep(s: State, m: Move, uid: nat, cap: int, most: nat, extra: int)
    requires Inv(s) && Enabled(s, m) && Within(s, uid, most, extra) && Within(Next(s, m), uid, most, extra)
    requires Committed(s, uid) <= cap + extra && ReadsBelow(s, uid, cap)
    ensures Committed(Next(s, m), uid) <= cap + extra
  {
    CommittedAfter(s, m, uid);
    PendingAtMost(s.threads, uid, most);
    if Passes(s, m, uid) || Leaves(s, m, uid) {
      assert s.threads[m.i] in s.threads && ThreadOk(s.b, s.threads[m.i]);
    }
  }

  /** The player's totals in the states of a run. */
  function Totals(ss: seq<State>, uid: nat): (d: seq<int>)
    ensures |d| == |ss| && forall i | 0 <= i < |ss| :: d[i] == Donated(ss[i].b, uid)
  {
    seq(|ss|, i requires 0 <= i < |ss| => Donated(ss[i].b, uid))
  }

  /** The highest of d up to n. */
  function Highest(d: seq<int>, n: nat): (h: int)
    requires n < |d|
    ensures d[n] <= h
  {
    if n == 0 || d[n] > Highest(d, n - 1) then d[n] else Highest(d, n - 1)
  }

  /** The highest total the player has had in the states up to n. */
  function Peak(ss: seq<State>, n: nat, uid: nat): int
    requires n < |ss|
  {
    Highest(Totals(ss, uid), n)
  }

  lemma {:induction false} HighestAtMost(d: seq<int>, h: seq<int>, n: nat)
    requires n < |d| == |h| && forall i | 0 <= i <= n :: d[i] <= h[i]
    requires forall i | 0 <= i < n :: h[i] <= h[i + 1]
    ensures Highest(d, n) <= h[n]
  {
    if n > 0 {
      HighestAtMost(d, h, n - 1);
    }
  }

  lemma {:induction false} Ascends(d: seq<int>, i: nat, n: nat)
    requires i <= n < |d| && forall j | 0 <= j < n :: d[j] <= d[j + 1]
    ensures d[i] <= d[n] && Highest(d, n) == d[n]
  {
    if 0 < n {
      Ascends(d, if i < n then i else n - 1, n - 1);
    }
  }

  /** What is read and committed stays within cap, and extra for what is in flight. */
  ghost predicate BelowCap(s: State, uid: nat, cap: int, extra: int)
  {
    ReadsBelow(s, uid, cap) && Committed(s, uid) <= cap + extra
  }

  /** caps never decrease and are above the totals; the purchases in flight are within extra. */
  ghost predicate CappedAt(ss: seq<State>, i: nat, uid: nat, most: nat, extra: int, caps: seq<int>)
  {
    && i < |ss| && i < |caps| && Within(ss[i], uid, most, extra)
    && Donated(ss[i].b, uid) <= caps[i] && (i > 0 ==> caps[i - 1] <= caps[i])
  }

  lemma {:induction false} CappedStep(ms: seq<Move>, ss: seq<State>, i: nat, uid: nat, most: nat, extra: nat, caps: seq<int>)
    requires IsRun(ms, ss) && CappedAt(ss, i, uid, most, extra, caps) && CappedAt(ss, i + 1, uid, most, extra, caps)
    requires BelowCap(ss[i], uid, caps[i], extra)
    ensures BelowCap(ss[i + 1], uid, caps[i + 1], extra)
  {
    RunInv(ms, ss, i);
    assert StepAt(ms, ss, i);
    NextReadsBelow(ss[i], ms[i], uid, caps[i]);
    CommittedStep(ss[i], ms[i], uid, caps[i], most, extra);
  }

  lemma {:induction false} SpendingCapped(ms: seq<Move>, ss: seq<State>, n: nat, uid: nat, most: nat, extra: nat, caps: seq<int>)
    requires IsRun(ms, ss) && n < |ss| && n < |caps|
    requires forall i: nat | i <= n :: CappedAt(ss, i, uid, most, extra, caps)
    ensures BelowCap(ss[n], uid, caps[n], extra)
  {
    assert CappedAt(ss, n, uid, most, extra, caps);
    if n > 0 {
      assert CappedAt(ss, n - 1, uid, most, extra, caps);
      SpendingCapped(ms, ss, n - 1, uid, most, extra, caps);
      CappedStep(ms, ss, n - 1, uid, most, extra, caps);
    } else {
      NothingCommitted(ss[0], uid, caps[0], extra);
    }
  }

  lemma {:induction false} NothingCommitted(s: State, uid: nat, cap: int, extra: nat)
    requires s == INIT && Donated(s.b, uid) <= cap
    ensures BelowCap(s, uid, cap, extra)
  {
  }

  /** With at most k purchases of a player passed and unrecorded at any time, each costing at most
      most, what is committed never exceeds the highest total the player has had by more than
      (k - 1) * most, however credits and purchases interleave and whichever writes fail. */
  lemma {:induction false} SpendingBelowPeak(ms: seq<Move>, ss: seq<State>, n: nat, uid: nat, k: nat, most: nat)
    requires IsRun(ms, ss) && n < |ss| && k >= 1
    requires forall i | 0 <= i <= n :: InFlight(ss[i], uid) <= k && CostsAtMost(ss[i], uid, most)
    ensures Committed(ss[n], uid) <= Peak(ss, n, uid) + most * (k - 1)
  {
    TimesMonotone(0, k - 1, most);
    var d, extra := Totals(ss, uid), most * (k - 1);
    var caps := seq(|ss|, i requires 0 <= i < |ss| => Highest(d, i));
    forall i: nat | i <= n ensures CappedAt(ss, i, uid, most, extra, caps) {
      WithinBound(ss[i], uid, k, most);
      assert d[i] == Donated(ss[i].b, uid);
    }
    SpendingCapped(ms, ss, n, uid, most, extra, caps);
  }

  lemma {:induction false} TotalAtMostHistory(ms: seq<Move>, ss: seq<State>, i: nat, uid: nat)
    requires IsRun(ms, ss) && i < |ss|
    ensures Donated(ss[i].b, uid) <= HistorySum(ss[i].b, uid)
    ensures i + 1 < |ss| ==> HistorySum(ss[i].b, uid) <= HistorySum(ss[i + 1].b, uid)
  {
    RunInv(ms, ss, i);
    if i + 1 < |ss| {
      assert StepAt(ms, ss, i);
      NextKeepsInv(ss[i], ms[i]);
    }
  }

  lemma {:induction false} PeakAtMostHistory(ms: seq<Move>, ss: seq<State>, n: nat, uid: nat)
    requires IsRun(ms, ss) && n < |ss|
    ensures Peak(ss, n, uid) <= HistorySum(ss[n].b, uid)
  {
    var h := seq(|ss|, i requires 0 <= i < |ss| => HistorySum(ss[i].b, uid));
    forall i | 0 <= i < |ss| ensures Totals(ss, uid)[i] <= h[i] && (i + 1 < |ss| ==> h[i] <= h[i + 1]) {
      TotalAtMostHistory(ms, ss, i, uid);
    }
    HighestAtMost(Totals(ss, uid), h, n);
  }

  /** So spending is bounded by the recorded donations in every run. */
  lemma {:induction false} SpendingBound(ms: seq<Move>, ss: seq<State>, n: nat, uid: nat, k: nat, most: nat)
    requires IsRun(ms, ss) && n < |ss| && k >= 1
    requires forall i | 0 <= i <= n :: InFlight(ss[i], uid) <= k && CostsAtMost(ss[i], uid, most)
    ensures Committed(ss[n], uid) <= HistorySum(ss[n].b, uid) + most * (k - 1)
  {
    SpendingBelowPeak(ms, ss, n, uid, k, most);
    PeakAtMostHistory(ms, ss, n, uid);
  }

  // Which writes make a total fall.

  /** The move writes a history sum that is older than the total it replaces. */
  predicate StaleWrite(s: State, m: Move, uid: nat)
  {
    && m.Go? && m.ok && m.i < |s.threads| && s.threads[m.i].Crediter? && s.threads[m.i].uid == uid
    && s.threads[m.i].crediting.AtUpdate? && s.threads[m.i].crediting.sum < Donated(s.b, uid)
  }

  /** A move lowers a player's total exactly if it is a stale write. */
  lemma {:induction false} FallsExactly(s: State, m: Move, uid: nat)
    requires Inv(s) && Enabled(s, m)
    ensures Donated(Next(s, m).b, uid) < Donated(s.b, uid) <==> StaleWrite(s, m, uid)
  {
    if m.Go? {
      var t := s.threads[m.i];
      assert t in s.threads && ThreadOk(s.b, t);
      InfoAfter(s.b, t, m.ok, m.now, uid);
    }
  }

  lemma {:induction false} FallsAt(ms: seq<Move>, ss: seq<State>, i: nat, uid: nat)
    requires IsRun(ms, ss) && i < |ms|
    ensures Totals(ss, uid)[i + 1] < Totals(ss, uid)[i] <==> StaleWrite(ss[i], ms[i], uid)
  {
    RunInv(ms, ss, i);
    assert StepAt(ms, ss, i);
    FallsExactly(ss[i], ms[i], uid);
  }

  lemma {:induction false} FallsThroughout(ms: seq<Move>, ss: seq<State>, uid: nat)
    requires IsRun(ms, ss)
    ensures forall i: nat | i < |ms| :: Totals(ss, uid)[i + 1] < Totals(ss, uid)[i] <==> StaleWrite(ss[i], ms[i], uid)
  {
    forall i: nat | i < |ms| ensures Totals(ss, uid)[i + 1] < Totals(ss, uid)[i] <==> StaleWrite(ss[i], ms[i], uid) {
      FallsAt(ms, ss, i, uid);
    }
  }

  /** Over a run a player's total never falls exactly if the run has no stale write for the player. */
  lemma {:induction false} TotalsGrowExactly(ms: seq<Move>, ss: seq<State>, n: nat, uid: nat)
    requires IsRun(ms, ss) && n < |ss|
    ensures (forall i, j | 0 <= i <= j <= n :: Totals(ss, uid)[i] <= Totals(ss, uid)[j])
            <==> forall i | 0 <= i < n :: !StaleWrite(ss[i], ms[i], uid)
  {
    var d := Totals(ss, uid);
    FallsThroughout(ms, ss, uid);
    if i :| 0 <= i < n && StaleWrite(ss[i], ms[i], uid) {
      var j := i + 1;
      assert 0 <= i <= j <= n && d[i] > d[j];
    } else {
      forall i, j | 0 <= i <= j <= n ensures d[i] <= d[j] {
        Ascends(d, i, j);
      }
    }
  }

  lemma {:induction false} PeakIsTotal(ms: seq<Move>, ss: seq<State>, n: nat, uid: nat)
    requires IsRun(ms, ss) && n < |ss|
    requires forall i | 0 <= i < n :: !StaleWrite(ss[i], ms[i], uid)
    ensures Peak(ss, n, uid) == Totals(ss, uid)[n] == Donated(ss[n].b, uid)
  {
    FallsThroughout(ms, ss, uid);
    Ascends(Totals(ss, uid), n, n);
  }

  lemma {:induction false} PendingNonNegativeAt(ms: seq<Move>, ss: seq<State>, n: nat, uid: nat)
    requires IsRun(ms, ss) && n < |ss|
    ensures ConsumeSum(ss[n].b, uid) <= Committed(ss[n], uid)
  {
    RunInv(ms, ss, n);
    SumNonNegative(ss[n].threads, PendingCost(uid));
  }

  /** Without stale writes spending is bounded by the total itself, also while credits overlap. */
  lemma {:induction false} TotalSpendingBound(ms: seq<Move>, ss: seq<State>, n: nat, uid: nat, k: nat, most: nat)
    requires IsRun(ms, ss) && n < |ss| && k >= 1
    requires forall i | 0 <= i <= n :: InFlight(ss[i], uid) <= k && CostsAtMost(ss[i], uid, most)
    requires forall i | 0 <= i < n :: !StaleWrite(ss[i], ms[i], uid)
    ensures Committed(ss[n], uid) <= Donated(ss[n].b, uid) + most * (k - 1)
  {
    PeakIsTotal(ms, ss, n, uid);
    SpendingBelowPeak(ms, ss, n, uid, k, most);
  }

  /** With purchases one at a time nobody ever overspends then, even while credits arrive between the
      two reads of a purchase. */
  lemma {:induction false} NeverOverspent(ms: seq<Move>, ss: seq<State>, n: nat, uid: nat, most: nat)
    requires IsRun(ms, ss) && n < |ss|
    requires forall i | 0 <= i <= n :: InFlight(ss[i], uid) <= 1 && CostsAtMost(ss[i], uid, most)
    requires forall i | 0 <= i < n :: !StaleWrite(ss[i], ms[i], uid)
    ensures ConsumeSum(ss[n].b, uid) <= Committed(ss[n], uid) <= Donated(ss[n].b, uid)
  {
    TotalSpendingBound(ms, ss, n, uid, 1, most);
    PendingNonNegativeAt(ms, ss, n, uid);
  }

  // Exactly when the bound is lost.

  /** A check comes out in favour of a purchase because the total has been lowered since it was read. */
  predicate StaleRead(s: State, m: Move, uid: nat)
  {
    Passes(s, m, uid) && Donated(s.b, uid) < s.threads[m.i].buying.total
  }

  /** A stale write puts the total below what is committed, or a stale read commits more than the total
      has room for, beyond what extra allows. */
  predicate Breaks(s: State, m: Move, uid: nat, extra: int)
  {
    || (StaleWrite(s, m, uid) && s.threads[m.i].crediting.sum + extra < Committed(s, uid))
    || (StaleRead(s, m, uid) && Donated(s.b, uid) + extra < Committed(s, uid) + s.threads[m.i].cost)
  }

  /** What is committed exceeds the total by extra at most. */
  ghost predicate InBound(s: State, uid: nat, extra: int)
  {
    Committed(s, uid) <= Donated(s.b, uid) + extra
  }

  /** A purchase that passes its check keeps the bound exactly if it is no breaking stale read. */
  lemma {:induction false} PassKeepsBound(s: State, m: Move, uid: nat, most: nat, extra: int)
    requires Inv(s) && Enabled(s, m) && Within(s, uid, most, extra) && Within(Next(s, m), uid, most, extra)
    requires Passes(s, m, uid)
    ensures InBound(Next(s, m), uid, extra) <==> !Breaks(s, m, uid, extra)
  {
    CommittedAfter(s, m, uid);
    PendingAtMost(s.threads, uid, most);
    assert Next(s, m).b == s.b;
  }

  /** A credit that writes a total keeps the bound exactly if it is no breaking stale write. */
  lemma {:induction false} WriteKeepsBound(s: State, m: Move, uid: nat, extra: int)
    requires Inv(s) && Enabled(s, m) && InBound(s, uid, extra)
    requires m.Go? && m.ok && s.threads[m.i].Crediter? && s.threads[m.i].uid == uid && s.threads[m.i].crediting.AtUpdate?
    ensures InBound(Next(s, m), uid, extra) <==> !Breaks(s, m, uid, extra)
  {
    var t := s.threads[m.i];
    assert t in s.threads && ThreadOk(s.b, t);
    InfoAfter(s.b, t, m.ok, m.now, uid);
    CommittedAfter(s, m, uid);
  }

  /** From within the bound a move leads out of it exactly if it breaks it. */
  lemma {:induction false} BoundAfter(s: State, m: Move, uid: nat, most: nat, extra: int)
    requires Inv(s) && Enabled(s, m) && Within(s, uid, most, extra) && Within(Next(s, m), uid, most, extra)
    requires InBound(s, uid, extra)
    ensures InBound(Next(s, m), uid, extra) <==> !Breaks(s, m, uid, extra)
  {
    if Passes(s, m, uid) {
      PassKeepsBound(s, m, uid, most, extra);
    } else if m.Go? && m.ok && s.threads[m.i].Crediter? && s.threads[m.i].uid == uid && s.threads[m.i].crediting.AtUpdate? {
      WriteKeepsBound(s, m, uid, extra);
    } else {
      CommittedAfter(s, m, uid);
      FallsExactly(s, m, uid);
      if Leaves(s, m, uid) {
        assert s.threads[m.i] in s.threads && ThreadOk(s.b, s.threads[m.i]);
      }
    }
  }

  /** caps never decrease and are above the totals. */
  ghost predicate CapAt(ss: seq<State>, i: nat, uid: nat, caps: seq<int>)
  {
    i < |ss| && i < |caps| && Donated(ss[i].b, uid) <= caps[i] && (i > 0 ==> caps[i - 1] <= caps[i])
  }

  lemma {:induction false} ReadsCapped(ms: seq<Move>, ss: seq<State>, n: nat, uid: nat, caps: seq<int>)
    requires IsRun(ms, ss) && n < |ss| && n < |caps|
    requires forall i: nat | i <= n :: CapAt(ss, i, uid, caps)
    ensures ReadsBelow(ss[n], uid, caps[n])
  {
    if n > 0 {
      assert CapAt(ss, n, uid, caps) && CapAt(ss, n - 1, uid, caps);
      ReadsCapped(ms, ss, n - 1, uid, caps);
      assert StepAt(ms, ss, n - 1);
      NextReadsBelow(ss[n - 1], ms[n - 1], uid, caps[n - 1]);
    }
  }

  lemma {:induction false} ReadsCurrent(ms: seq<Move>, ss: seq<State>, n: nat, uid: nat)
    requires IsRun(ms, ss) && n < |ss| && forall i | 0 <= i < n :: !StaleWrite(ss[i], ms[i], uid)
    ensures ReadsBelow(ss[n], uid, Donated(ss[n].b, uid))
  {
    var d := Totals(ss, uid);
    FallsThroughout(ms, ss, uid);
    forall i: nat | i <= n ensures CapAt(ss, i, uid, d) {
      assert i > 0 ==> !(d[i - 1 + 1] < d[i - 1]);
    }
    ReadsCapped(ms, ss, n, uid, d);
  }

  /** Only a stale write can make a later read stale, so without stale writes nothing breaks the bound. */
  lemma {:induction false} StaleReadNeedsWrite(ms: seq<Move>, ss: seq<State>, n: nat, uid: nat)
    requires IsRun(ms, ss) && n < |ms| && StaleRead(ss[n], ms[n], uid)
    ensures exists i :: 0 <= i < n && StaleWrite(ss[i], ms[i], uid)
  {
    assert ss[n].threads[ms[n].i] in ss[n].threads;
    if forall i | 0 <= i < n :: !StaleWrite(ss[i], ms[i], uid) {
      ReadsCurrent(ms, ss, n, uid);
    }
  }

  ghost predicate WithinAt(ss: seq<State>, i: nat, uid: nat, most: nat, extra: int)
  {
    i < |ss| && Within(ss[i], uid, most, extra)
  }

  lemma {:induction false} BoundAt(ms: seq<Move>, ss: seq<State>, i: nat, uid: nat, most: nat, extra: int)
    requires IsRun(ms, ss) && WithinAt(ss, i, uid, most, extra) && WithinAt(ss, i + 1, uid, most, extra)
    requires InBound(ss[i], uid, extra)
    ensures InBound(ss[i + 1], uid, extra) <==> !Breaks(ss[i], ms[i], uid, extra)
  {
    RunInv(ms, ss, i);
    assert StepAt(ms, ss, i);
    BoundAfter(ss[i], ms[i], uid, most, extra);
  }

  ghost predicate UnbrokenAt(ms: seq<Move>, ss: seq<State>, i: nat, uid: nat, extra: int)
  {
    i < |ms| && i < |ss| && !Breaks(ss[i], ms[i], uid, extra)
  }

  lemma {:induction false} RunInBound(ms: seq<Move>, ss: seq<State>, n: nat, uid: nat, most: nat, extra: nat)
    requires IsRun(ms, ss) && n < |ss|
    requires forall i: nat | i <= n :: WithinAt(ss, i, uid, most, extra)
    requires forall i: nat | i < n :: UnbrokenAt(ms, ss, i, uid, extra)
    ensures InBound(ss[n], uid, extra)
  {
    if n == 0 {
      NothingCommitted(ss[0], uid, 0, extra);
    } else {
      RunInBound(ms, ss, n - 1, uid, most, extra);
      assert WithinAt(ss, n - 1, uid, most, extra) && WithinAt(ss, n, uid, most, extra);
      assert UnbrokenAt(ms, ss, n - 1, uid, extra);
      BoundAt(ms, ss, n - 1, uid, most, extra);
    }
  }

  /** A run is unbroken if it stays within the bound. */
  lemma {:induction false} InBoundUnbroken(ms: seq<Move>, ss: seq<State>, n: nat, uid: nat, most: nat, extra: int, i: nat)
    requires IsRun(ms, ss) && i < n < |ss|
    requires forall j: nat | j <= n :: WithinAt(ss, j, uid, most, extra)
    requires InBound(ss[i], uid, extra) && InBound(ss[i + 1], uid, extra)
    ensures UnbrokenAt(ms, ss, i, uid, extra)
  {
    assert WithinAt(ss, i, uid, most, extra) && WithinAt(ss, i + 1, uid, most, extra);
    BoundAt(ms, ss, i, uid, most, extra);
  }

  /** With at most k purchases of a player in flight, each costing at most most, spending stays within
      (k - 1) * most of the total throughout a run exactly if no stale write of it puts the total, and no
      stale read of it the commitments, out of that bound. */
  lemma {:induction false} BoundExactly(ms: seq<Move>, ss: seq<State>, n: nat, uid: nat, k: nat, most: nat)
    requires IsRun(ms, ss) && n < |ss| && k >= 1
    requires forall i | 0 <= i <= n :: InFlight(ss[i], uid) <= k && CostsAtMost(ss[i], uid, most)
    ensures (forall i | 0 <= i <= n :: InBound(ss[i], uid, most * (k - 1))) <==>
            forall i | 0 <= i < n :: !Breaks(ss[i], ms[i], uid, most * (k - 1))
  {
    TimesMonotone(0, k - 1, most);
    var extra := most * (k - 1);
    forall i: nat | i <= n ensures WithinAt(ss, i, uid, most, extra) {
      WithinBound(ss[i], uid, k, most);
    }
    if forall i | 0 <= i < n :: !Breaks(ss[i], ms[i], uid, extra) {
      forall i: nat | i < n ensures UnbrokenAt(ms, ss, i, uid, extra) {
      }
      forall i | 0 <= i <= n ensures InBound(ss[i], uid, extra) {
        RunInBound(ms, ss, i, uid, most, extra);
      }
    } else if forall i | 0 <= i <= n :: InBound(ss[i], uid, extra) {
      forall i | 0 <= i < n ensures !Breaks(ss[i], ms[i], uid, extra) {
        InBoundUnbroken(ms, ss, n, uid, most, extra, i);
      }
    }
  }

  // Credits of one player that do not overlap make no stale write.

  predicate Crediting(t: Thread, uid: nat)
  {
    t.Crediter? && t.uid == uid && t.crediting != Over
  }

  /** At most one credit of the player is under way. */
  ghost predicate Serial(s: State, uid: nat)
  {
    forall i, j | 0 <= i < j < |s.threads| :: !(Crediting(s.threads[i], uid) && Crediting(s.threads[j], uid))
  }

  /** No credit of the player is about to write less than the total. */
  ghost predicate SumsCurrent(s: State, uid: nat)
  {
    forall t | t in s.threads && t.Crediter? && t.uid == uid && t.crediting.AtUpdate? :: Donated(s.b, uid) <= t.crediting.sum
  }

  /** A step of the one credit under way computes and writes no sum below the total. */
  lemma {:induction false} StepKeepsCurrent(b: Books, t: Thread, ok: bool, now: int, uid: nat)
    requires BooksOk(b) && ThreadOk(b, t) && Crediting(t, uid)
    requires t.crediting.AtUpdate? ==> Donated(b, uid) <= t.crediting.sum
    ensures var (b', t') := StepThread(b, t, ok, now);
            Donated(b, uid) <= Donated(b', uid) && (t'.crediting.AtUpdate? ==> Donated(b', uid) <= t'.crediting.sum)
  {
    InfoAfter(b, t, ok, now, uid);
    assert Donated(b, uid) <= HistorySum(b, uid);
  }

  /** A step of any other thread leaves the player's total and history alone. */
  lemma {:induction false} OthersKeepBooks(b: Books, t: Thread, ok: bool, now: int, uid: nat)
    requires BooksOk(b) && ThreadOk(b, t) && !Crediting(t, uid)
    ensures var (b', t') := StepThread(b, t, ok, now);
            !Crediting(t', uid) && DonateInfo(b', uid) == DonateInfo(b, uid) && HistorySum(b', uid) == HistorySum(b, uid)
  {
    InfoAfter(b, t, ok, now, uid);
    HistoryAfter(b, t, ok, now, uid);
  }

  /** While thread i moves, every other thread stays as it is; a credit of the player in i is the only one. */
  lemma OthersStay(s: State, i: nat, ok: bool, now: int, uid: nat, x: Thread)
    requires i < |s.threads| && Serial(s, uid) && x in Next(s, Go(i, ok, now)).threads
    ensures x == StepThread(s.b, s.threads[i], ok, now).1
            || (x in s.threads && (Crediting(s.threads[i], uid) ==> !Crediting(x, uid)))
  {
    var u := Next(s, Go(i, ok, now));
    var j :| 0 <= j < |u.threads| && u.threads[j] == x;
    assert j != i ==> s.threads[j] == x && x in s.threads;
    assert i < j ==> !(Crediting(s.threads[i], uid) && Crediting(s.threads[j], uid));
    assert j < i ==> !(Crediting(s.threads[j], uid) && Crediting(s.threads[i], uid));
  }

  lemma {:induction false} NextKeepsCurrent(s: State, m: Move, uid: nat)
    requires Inv(s) && Enabled(s, m) && Serial(s, uid) && SumsCurrent(s, uid)
    ensures SumsCurrent(Next(s, m), uid) && !StaleWrite(s, m, uid)
  {
    if m.Go? {
      var t := s.threads[m.i];
      assert t in s.threads && ThreadOk(s.b, t);
      if Crediting(t, uid) {
        StepKeepsCurrent(s.b, t, m.ok, m.now, uid);
      } else {
        OthersKeepBooks(s.b, t, m.ok, m.now, uid);
      }
      forall x | x in Next(s, m).threads && x.Crediter? && x.uid == uid && x.crediting.AtUpdate?
        ensures Donated(Next(s, m).b, uid) <= x.crediting.sum
      {
        OthersStay(s, m.i, m.ok, m.now, uid, x);
        assert Crediting(x, uid);
      }
    }
  }

  lemma {:induction false} CurrentAt(ms: seq<Move>, ss: seq<State>, i: nat, uid: nat)
    requires IsRun(ms, ss) && i + 1 < |ss| && Serial(ss[i], uid) && SumsCurrent(ss[i], uid)
    ensures SumsCurrent(ss[i + 1], uid) && !StaleWrite(ss[i], ms[i], uid)
  {
    RunInv(ms, ss, i);
    assert StepAt(ms, ss, i);
    NextKeepsCurrent(ss[i], ms[i], uid);
  }

  ghost predicate SerialAt(ss: seq<State>, i: nat, uid: nat)
  {
    i < |ss| && Serial(ss[i], uid)
  }

  lemma {:induction false} SerialIsCurrent(ms: seq<Move>, ss: seq<State>, n: nat, uid: nat)
    requires IsRun(ms, ss) && n < |ss|
    requires forall i: nat | i < n :: SerialAt(ss, i, uid)
    ensures SumsCurrent(ss[n], uid)
  {
    if n > 0 {
      SerialIsCurrent(ms, ss, n - 1, uid);
      assert SerialAt(ss, n - 1, uid);
      CurrentAt(ms, ss, n - 1, uid);
    }
  }

  /** Credits of a player that do not overlap make no stale write. */
  lemma {:induction false} SerialNeverStale(ms: seq<Move>, ss: seq<State>, n: nat, uid: nat)
    requires IsRun(ms, ss) && n < |ss|
    requires forall i | 0 <= i < n :: Serial(ss[i], uid)
    ensures forall i | 0 <= i < n :: !StaleWrite(ss[i], ms[i], uid)
  {
    forall i: nat | i < n ensures SerialAt(ss, i, uid) {
    }
    forall i | 0 <= i < n ensures !StaleWrite(ss[i], ms[i], uid) {
      SerialIsCurrent(ms, ss, i, uid);
      CurrentAt(ms, ss, i, uid);
    }
  }

  /** When the credits of a player do not overlap, the player's total never falls. */
  lemma {:induction false} SerialTotalsGrow(ms: seq<Move>, ss: seq<State>, i: nat, n: nat, uid: nat)
    requires IsRun(ms, ss) && i <= n < |ss|
    requires forall j | 0 <= j < n :: Serial(ss[j], uid)
    ensures Totals(ss, uid)[i] <= Totals(ss, uid)[n]
  {
    SerialNeverStale(ms, ss, n, uid);
    TotalsGrowExactly(ms, ss, n, uid);
  }

  /** Then purchases are bounded by the total itself. */
  lemma {:induction false} SerialSpendingBound(ms: seq<Move>, ss: seq<State>, n: nat, uid: nat, k: nat, most: nat)
    requires IsRun(ms, ss) && n < |ss| && k >= 1
    requires forall i | 0 <= i <= n :: InFlight(ss[i], uid) <= k && CostsAtMost(ss[i], uid, most) && Serial(ss[i], uid)
    ensures Committed(ss[n], uid) <= Donated(ss[n].b, uid) + most * (k - 1)
    ensures k == 1 ==> ConsumeSum(ss[n].b, uid) <= Donated(ss[n].b, uid)
  {
    SerialNeverStale(ms, ss, n, uid);
    TotalSpendingBound(ms, ss, n, uid, k, most);
    if k == 1 {
      NeverOverspent(ms, ss, n, uid, most);
    }
  }

  // Then the total is also complete, if it can be written.

  /** Where a credit of the player under way stands between history and total. */
  ghost predicate Progress(b: Books, t: Thread, uid: nat)
    requires t.Crediter?
  {
    var level := Donated(b, uid) == HistorySum(b, uid);
    var owed := Donated(b, uid) + t.money == HistorySum(b, uid);
    match t.crediting
    case AtCheck => level
    case AtRecord => level
    case AtExists => owed
    case AtInsert => owed && DonateInfo(b, uid).None?
    case AtInfo => owed && DonateInfo(b, uid).Some?
    case AtSum(_) => owed && DonateInfo(b, uid).Some?
    case AtUpdate(sum, _) => sum == HistorySum(b, uid) && DonateInfo(b, uid).Some?
    case Over => true
  }

  /** The total is the history sum, less what the one credit under way has recorded and not yet added. */
  ghost predicate Settled(s: State, uid: nat)
  {
    && (forall t | t in s.threads && Crediting(t, uid) :: Progress(s.b, t, uid))
    && ((forall t | t in s.threads :: !Crediting(t, uid)) ==> Donated(s.b, uid) == HistorySum(s.b, uid))
  }

  /** The move is not a failing write of the player's total. */
  predicate TotalTaken(s: State, m: Move, uid: nat)
  {
    m.Go? && m.i < |s.threads| && Crediting(s.threads[m.i], uid)
      && (s.threads[m.i].crediting.AtInsert? || s.threads[m.i].crediting.AtUpdate?)
    ==> m.ok
  }

  lemma {:induction false} StepMakesProgress(b: Books, t: Thread, ok: bool, now: int, uid: nat)
    requires BooksOk(b) && ThreadOk(b, t) && Crediting(t, uid) && Progress(b, t, uid)
    requires t.crediting.AtInsert? || t.crediting.AtUpdate? ==> ok
    ensures var (b', t') := StepThread(b, t, ok, now);
            Progress(b', t', uid) && (t'.crediting == Over ==> Donated(b', uid) == HistorySum(b', uid))
  {
    InfoAfter(b, t, ok, now, uid);
    HistoryAfter(b, t, ok, now, uid);
  }

  lemma {:induction false} StartSettles(s: State, t: Thread, uid: nat)
    requires Fresh(t) && Serial(Next(s, Start(t)), uid) && Settled(s, uid)
    ensures Settled(Next(s, Start(t)), uid)
  {
    var u := Next(s, Start(t));
    assert u.threads[|s.threads|] == t && t in u.threads;
    if Crediting(t, uid) {
      forall x | x in s.threads ensures !Crediting(x, uid) {
        var j :| 0 <= j < |s.threads| && s.threads[j] == x;
        assert u.threads[j] == x;
      }
    } else {
      assert forall x | x in s.threads :: x in u.threads;
    }
  }

  /** The one credit of the player under way takes a step. */
  lemma {:induction false} CreditSettles(s: State, i: nat, ok: bool, now: int, uid: nat)
    requires Inv(s) && i < |s.threads| && Serial(s, uid) && Settled(s, uid) && TotalTaken(s, Go(i, ok, now), uid)
    requires Crediting(s.threads[i], uid)
    ensures Settled(Next(s, Go(i, ok, now)), uid)
  {
    var u, t := Next(s, Go(i, ok, now)), s.threads[i];
    assert t in s.threads && ThreadOk(s.b, t) && u.threads[i] in u.threads;
    StepMakesProgress(s.b, t, ok, now, uid);
    forall x | x in u.threads && Crediting(x, uid) ensures Progress(u.b, x, uid) {
      OthersStay(s, i, ok, now, uid, x);
    }
  }

  /** Any other thread takes a step. */
  lemma {:induction false} OtherSettles(s: State, i: nat, ok: bool, now: int, uid: nat)
    requires Inv(s) && i < |s.threads| && Serial(s, uid) && Settled(s, uid) && !Crediting(s.threads[i], uid)
    ensures Settled(Next(s, Go(i, ok, now)), uid)
  {
    var u, t := Next(s, Go(i, ok, now)), s.threads[i];
    assert t in s.threads && ThreadOk(s.b, t);
    OthersKeepBooks(s.b, t, ok, now, uid);
    forall x | x in u.threads && Crediting(x, uid) ensures Progress(u.b, x, uid) {
      OthersStay(s, i, ok, now, uid, x);
      assert Progress(s.b, x, uid);
    }
    forall x | x in s.threads && Crediting(x, uid) ensures x in u.threads {
      CreditsStay(s, i, ok, now, uid, x);
    }
  }

  lemma CreditsStay(s: State, i: nat, ok: bool, now: int, uid: nat, x: Thread)
    requires i < |s.threads| && !Crediting(s.threads[i], uid) && x in s.threads && Crediting(x, uid)
    ensures x in Next(s, Go(i, ok, now)).threads
  {
    var j :| 0 <= j < |s.threads| && s.threads[j] == x;
    assert Next(s, Go(i, ok, now)).threads[j] == x;
  }

  /** Move i leads from one state with at most one credit under way to another, and does not fail to
      write the total. */
  ghost predicate SmoothAt(ms: seq<Move>, ss: seq<State>, i: nat, uid: nat)
  {
    i < |ms| && i + 1 < |ss| && Serial(ss[i], uid) && Serial(ss[i + 1], uid) && TotalTaken(ss[i], ms[i], uid)
  }

  lemma {:induction false} SettlesAt(ms: seq<Move>, ss: seq<State>, i: nat, uid: nat)
    requires IsRun(ms, ss) && SmoothAt(ms, ss, i, uid) && Settled(ss[i], uid)
    ensures Settled(ss[i + 1], uid)
  {
    RunInv(ms, ss, i);
    assert StepAt(ms, ss, i);
    match ms[i]
    case Start(t) => StartSettles(ss[i], t, uid);
    case Go(j, ok, now) =>
      if Crediting(ss[i].threads[j], uid) {
        CreditSettles(ss[i], j, ok, now, uid);
      } else {
        OtherSettles(ss[i], j, ok, now, uid);
      }
  }

  lemma {:induction false} SerialSettles(ms: seq<Move>, ss: seq<State>, n: nat, uid: nat)
    requires IsRun(ms, ss) && n < |ss|
    requires forall i: nat | i < n :: SmoothAt(ms, ss, i, uid)
    ensures Settled(ss[n], uid)
  {
    if n > 0 {
      SerialSettles(ms, ss, n - 1, uid);
      SettlesAt(ms, ss, n - 1, uid);
    } else {
      assert HistorySum(ss[0].b, uid) == 0;
    }
  }

  /** When the credits of a player do not overlap and every total can be written, the total is the
      sum of the recorded donations whenever no credit of the player is under way, whatever other
      players, purchases and failing history inserts do in between. */
  lemma {:induction false} SerialLevel(ms: seq<Move>, ss: seq<State>, n: nat, uid: nat)
    requires IsRun(ms, ss) && n < |ss|
    requires forall i | 0 <= i <= n :: Serial(ss[i], uid)
    requires forall i | 0 <= i < n :: TotalTaken(ss[i], ms[i], uid)
    requires forall t | t in ss[n].threads :: !Crediting(t, uid)
    ensures Donated(ss[n].b, uid) == HistorySum(ss[n].b, uid)
  {
    forall i: nat | i < n ensures SmoothAt(ms, ss, i, uid) {
    }
    SerialSettles(ms, ss, n, uid);
  }
}
