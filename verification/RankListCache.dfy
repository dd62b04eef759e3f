/** The two caches of the rank list. A list is to be less than 30 seconds old, and is in both. A list
    of plain records can always be put into text; the branch for its failing is modelled all the same,
    and only in the second cache would it do no harm. */
module RankListCache {

  const CACHE_SECONDS := 30

  /** One call: the clock as the cache is looked at and as a new list is begun, the list that the
      tables give at that time, and whether it could be put into text. */
  datatype Call = Call(server: int, now: int, stamp: int, current: string, marshalled: bool)

  /** The clock does not go back within a call or from one call to the next, and is past its first 30 seconds. */
  ghost predicate ClockRuns(es: seq<Call>)
  {
    && (forall i | 0 <= i < |es| :: CACHE_SECONDS <= es[i].now <= es[i].stamp)
    && forall i, j | 0 <= i < j < |es| :: es[i].stamp <= es[j].now
  }

  // The cache with one text and one time.

  datatype Cache = Cache(text: string, time: int)

  predicate Hits(c: Cache, now: int)
  {
    now - c.time < CACHE_SECONDS
  }

  /** The time is set before it is known whether there will be a text. */
  function Next(c: Cache, e: Call): Cache
  {
    if Hits(c, e.now) then c
    else if e.marshalled then Cache(e.current, e.stamp)
    else c.(time := e.stamp)
  }

  function Answer(c: Cache, e: Call): string
  {
    if Hits(c, e.now) then c.text else if e.marshalled then e.current else ""
  }

  class RankListCacheV1 {
    var rankListCache: string
    var lastRankListCacheTime: int

    ghost function Contents(): Cache
      reads this
    {
      Cache(rankListCache, lastRankListCacheTime)
    }

    constructor ()
      ensures Contents() == Cache("", 0)
    {
      rankListCache, lastRankListCacheTime := "", 0;
    }

    method GetPlayerRankList(e: Call) returns (rankList: string)
      modifies this
      ensures Contents() == Next(old(Contents()), e)
      ensures rankList == Answer(old(Contents()), e)
    {
      if e.now - lastRankListCacheTime < CACHE_SECONDS {
        return rankListCache;
      }
      lastRankListCacheTime := e.stamp;
      if !e.marshalled {
        return "";
      }
      rankList := e.current;
      rankListCache := rankList;
    }
  }

  /** The cache after the first i calls. */
  function At(es: seq<Call>, i: nat): Cache
    requires i <= |es|
  {
    if i == 0 then Cache("", 0) else Next(At(es, i - 1), es[i - 1])
  }

  /** Call i does not find the cache young enough. */
  predicate Attempts(es: seq<Call>, i: nat)
    requires i < |es|
  {
    !Hits(At(es, i), es[i].now)
  }

  predicate Refreshes(es: seq<Call>, i: nat)
    requires i < |es|
  {
    Attempts(es, i) && es[i].marshalled
  }

  /** What call i returns is a list that a call up to then made less than 30 seconds earlier. */
  ghost predicate IsFresh(es: seq<Call>, i: nat)
    requires i < |es|
  {
    exists r: nat {:trigger Refreshes(es, r)} | r <= i ::
      Refreshes(es, r) && es[i].now - es[r].stamp < 30 && Answer(At(es, i), es[i]) == es[r].current
  }

  /** Call m is the last before call i to attempt a new list. */
  ghost predicate LastAttempt(es: seq<Call>, m: nat, i: nat)
    requires i <= |es|
  {
    m < i && Attempts(es, m) && forall n | m < n < i :: !Attempts(es, n)
  }

  lemma {:induction false} FindLastAttempt(es: seq<Call>, i: nat) returns (m: nat)
    requires ClockRuns(es) && 0 < i <= |es|
    ensures LastAttempt(es, m, i)
  {
    if Attempts(es, i - 1) {
      m := i - 1;
    } else {
      assert i > 1;
      m := FindLastAttempt(es, i - 1);
    }
  }

  /** The cache bears the time of the last attempt, whatever came of it, and its text if there was one. */
  lemma {:induction false} CacheSince(es: seq<Call>, m: nat, i: nat)
    requires i <= |es| && LastAttempt(es, m, i)
    ensures At(es, i) == At(es, m + 1)
    ensures At(es, i).time == es[m].stamp
    ensures es[m].marshalled ==> At(es, i).text == es[m].current
    decreases i
  {
    if m + 1 < i {
      assert !Attempts(es, i - 1);
      CacheSince(es, m, i - 1);
    }
  }

  /** A list made before an attempt is at least 30 seconds old at that attempt. */
  lemma OldAtAttempt(es: seq<Call>, r: nat, m: nat)
    requires ClockRuns(es) && r < m < |es| && Attempts(es, r) && Attempts(es, m)
    ensures es[m].now - es[r].stamp >= CACHE_SECONDS
  {
    var last := FindLastAttempt(es, m);
    CacheSince(es, last, m);
    assert r <= last;
    if r < last {
      assert es[r].stamp <= es[last].now <= es[last].stamp;
    }
  }

  /** What a call returns is a list less than 30 seconds old exactly if the last attempt, possibly the
      call's own, to put a new list into text succeeded. */
  lemma {:induction false} FreshExactly(es: seq<Call>, i: nat, m: nat)
    requires ClockRuns(es) && i < |es| && LastAttempt(es, m, i + 1)
    ensures IsFresh(es, i) <==> es[m].marshalled
  {
    if m < i {
      assert LastAttempt(es, m, i);
      CacheSince(es, m, i);
      assert !Attempts(es, i);
    }
    if es[m].marshalled {
      assert Refreshes(es, m);
    } else {
      forall r: nat | r <= i && Refreshes(es, r) ensures es[i].now - es[r].stamp >= CACHE_SECONDS {
        assert r < m;
        OldAtAttempt(es, r, m);
        assert m < i ==> es[m].stamp <= es[i].now;
      }
    }
  }

  /** A call attempts a new list exactly if no attempt before it was made less than 30 seconds earlier;
      otherwise it returns the text there is. */
  lemma {:induction false} AttemptsExactly(es: seq<Call>, i: nat)
    requires ClockRuns(es) && i < |es|
    ensures Attempts(es, i) <==> forall m: nat | m < i && Attempts(es, m) :: es[i].now - es[m].stamp >= 30
    ensures !Attempts(es, i) ==> Answer(At(es, i), es[i]) == At(es, i).text && At(es, i + 1) == At(es, i)
  {
    if Attempts(es, i) {
      forall m: nat | m < i && Attempts(es, m) ensures es[i].now - es[m].stamp >= 30 {
        OldAtAttempt(es, m, i);
      }
    } else if i > 0 {
      var last := FindLastAttempt(es, i);
      CacheSince(es, last, i);
    }
  }

  /** As long as lists can be put into text, every call returns a list less than 30 seconds old. */
  lemma {:induction false} AlwaysFresh(es: seq<Call>, i: nat)
    requires ClockRuns(es) && i < |es| && forall j | 0 <= j <= i :: es[j].marshalled
    ensures IsFresh(es, i)
  {
    var m := FindLastAttempt(es, i + 1);
    FreshExactly(es, i, m);
  }

  // Were that ever to fail: the time is set before the text is known.

  /** A list at 30 seconds, then failing attempts every 30 seconds, and one more call. */
  function Failing(failures: nat): seq<Call>
  {
    seq(failures + 2, i requires 0 <= i < failures + 2 =>
      if i == 0 then Call(0, 30, 30, "old", true)
      else if i <= failures then Call(0, 30 + 30 * i, 30 + 30 * i, "new", false)
      else Call(0, 30 * i + 1, 30 * i + 1, "new", true))
  }

  lemma {:induction false} FailingKeepsOld(failures: nat, i: nat)
    requires 1 <= i <= failures + 1
    ensures At(Failing(failures), i) == Cache("old", 30 * i)
  {
    var es := Failing(failures);
    if i == 1 {
      assert At(es, 0) == Cache("", 0) && es[0] == Call(0, 30, 30, "old", true);
    } else {
      FailingKeepsOld(failures, i - 1);
      assert es[i - 1] == Call(0, 30 + 30 * (i - 1), 30 + 30 * (i - 1), "new", false);
    }
  }

  /** Then there would be no bound on the age of what the first cache returns: after any number of
      failures it still gives out the list from before all of them. */
  lemma {:induction false} Stale(failures: nat)
    requires failures > 0
    ensures var es := Failing(failures);
            && ClockRuns(es)
            && Answer(At(es, failures + 1), es[failures + 1]) == es[0].current != es[failures + 1].current
            && es[failures + 1].now - es[0].stamp > CACHE_SECONDS * failures
            && !IsFresh(es, failures + 1)
  {
    var es := Failing(failures);
    FailingKeepsOld(failures, failures + 1);
    forall i, j | 0 <= i < j < |es| ensures es[i].stamp <= es[j].now {
      assert i + 1 <= j;
    }
    FailingKeepsOld(failures, failures);
    assert es[failures] == Call(0, 30 + 30 * failures, 30 + 30 * failures, "new", false);
    assert LastAttempt(es, failures, failures + 2);
    FreshExactly(es, failures + 1, failures);
  }

  // The cache with one item for each server.

  datatype Item = Item(data: string, lastUpdateTime: int)

  predicate HitsV2(c: map<int, Item>, e: Call)
  {
    e.server in c && e.now - c[e.server].lastUpdateTime < CACHE_SECONDS
  }

  function NextV2(c: map<int, Item>, e: Call): map<int, Item>
  {
    if HitsV2(c, e) || !e.marshalled then c else c[e.server := Item(e.current, e.stamp)]
  }

  function AnswerV2(c: map<int, Item>, e: Call): string
  {
    if HitsV2(c, e) then c[e.server].data else if e.marshalled then e.current else ""
  }

  class RankListCacheV2 {
    var rankListCacheMap: map<int, Item>

    constructor ()
      ensures rankListCacheMap == map[]
    {
      rankListCacheMap := map[];
    }

    method GetPlayerRankList(e: Call) returns (rankList: string)
      modifies this
      ensures rankListCacheMap == NextV2(old(rankListCacheMap), e)
      ensures rankList == AnswerV2(old(rankListCacheMap), e)
    {
      if e.server in rankListCacheMap {
        var cache := rankListCacheMap[e.server];
        if e.now - cache.lastUpdateTime < CACHE_SECONDS {
          return cache.data;
        }
      }
      if !e.marshalled {
        return "";
      }
      rankList := e.current;
      rankListCacheMap := rankListCacheMap[e.server := Item(rankList, e.stamp)];
    }
  }

  function AtV2(es: seq<Call>, i: nat): map<int, Item>
    requires i <= |es|
  {
    if i == 0 then map[] else NextV2(AtV2(es, i - 1), es[i - 1])
  }

  predicate RefreshesV2(es: seq<Call>, r: nat)
    requires r < |es|
  {
    es[r].marshalled && !HitsV2(AtV2(es, r), es[r])
  }

  /** What call i returns is a list that a call for the same server made less than 30 seconds earlier. */
  ghost predicate IsFreshV2(es: seq<Call>, i: nat)
    requires i < |es|
  {
    exists r: nat {:trigger RefreshesV2(es, r)} | r <= i ::
      && RefreshesV2(es, r) && es[r].server == es[i].server
      && es[i].now - es[r].stamp < 30 && AnswerV2(AtV2(es, i), es[i]) == es[r].current
  }

  /** The item of a server comes from a call that made a list for it. */
  lemma {:induction false} ItemSource(es: seq<Call>, i: nat, server: int) returns (r: nat)
    requires i <= |es| && server in AtV2(es, i)
    ensures r < i && es[r].server == server && RefreshesV2(es, r)
    ensures AtV2(es, i)[server] == Item(es[r].current, es[r].stamp)
  {
    if es[i - 1].server == server && RefreshesV2(es, i - 1) {
      r := i - 1;
    } else {
      r := ItemSource(es, i - 1, server);
    }
  }

  /** No call before made a younger one. */
  lemma {:induction false} ItemNewest(es: seq<Call>, i: nat, r: nat)
    requires ClockRuns(es) && r < i <= |es| && RefreshesV2(es, r)
    ensures es[r].server in AtV2(es, i) && AtV2(es, i)[es[r].server].lastUpdateTime >= es[r].stamp
    decreases i
  {
    if r < i - 1 {
      ItemNewest(es, i - 1, r);
      assert es[r].stamp <= es[i - 1].now <= es[i - 1].stamp;
    }
  }

  /** A call for a server makes a new list exactly if none was made for it in the last 30 seconds. */
  lemma {:induction false} HitsExactlyV2(es: seq<Call>, i: nat)
    requires ClockRuns(es) && i < |es|
    ensures HitsV2(AtV2(es, i), es[i]) <==>
            exists r: nat {:trigger RefreshesV2(es, r)} | r < i ::
              RefreshesV2(es, r) && es[r].server == es[i].server && es[i].now - es[r].stamp < 30
  {
    if HitsV2(AtV2(es, i), es[i]) {
      var r := ItemSource(es, i, es[i].server);
      assert RefreshesV2(es, r);
    } else {
      forall r: nat | r < i && RefreshesV2(es, r) && es[r].server == es[i].server ensures es[i].now - es[r].stamp >= 30 {
        ItemNewest(es, i, r);
      }
    }
  }

  lemma HitIsFresh(es: seq<Call>, i: nat)
    requires i < |es| && HitsV2(AtV2(es, i), es[i])
    ensures IsFreshV2(es, i)
  {
    var r := ItemSource(es, i, es[i].server);
    assert RefreshesV2(es, r);
  }

  lemma FailureIsNot(es: seq<Call>, i: nat, r: nat)
    requires ClockRuns(es) && r <= i < |es| && !HitsV2(AtV2(es, i), es[i]) && !es[i].marshalled
    requires RefreshesV2(es, r) && es[r].server == es[i].server
    ensures es[i].now - es[r].stamp >= CACHE_SECONDS
  {
    ItemNewest(es, i, r);
  }

  /** Whatever failed before, a call to the second cache returns a list for its server less than 30
      seconds old, unless it has to make a new list itself and cannot put it into text. */
  lemma {:induction false} AlwaysFreshV2(es: seq<Call>, i: nat)
    requires ClockRuns(es) && i < |es|
    ensures IsFreshV2(es, i) <==> HitsV2(AtV2(es, i), es[i]) || es[i].marshalled
  {
    if HitsV2(AtV2(es, i), es[i]) {
      HitIsFresh(es, i);
    } else if es[i].marshalled {
      assert RefreshesV2(es, i);
      assert es[i].now <= es[i].stamp;
    } else {
      forall r: nat | r <= i && RefreshesV2(es, r) && es[r].server == es[i].server
        ensures es[i].now - es[r].stamp >= CACHE_SECONDS
      {
        FailureIsNot(es, i, r);
      }
    }
  }
}
