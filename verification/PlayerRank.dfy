/** The player_rank table: a report inserts a player's row or updates the fields it has a value for. */
module PlayerRank {
  import opened Tables

  datatype RankRow = RankRow(uid: nat, name: string, job: int, level: int, expr: int, power: int)

  function HasName(name: string): RankRow -> bool { (r: RankRow) => r.name == name }

  function NotName(name: string): RankRow -> bool { (r: RankRow) => r.name != name }

  function NameOf(): RankRow -> string { (r: RankRow) => r.name }

  /** One assignment of an UPDATE statement. */
  datatype Assignment = SetLevel(v: int) | SetExpr(v: int) | SetPower(v: int)

  function Assign(r: RankRow, a: Assignment): RankRow
  {
    match a
    case SetLevel(v) => r.(level := v)
    case SetExpr(v) => r.(expr := v)
    case SetPower(v) => r.(power := v)
  }

  function AssignAll(r: RankRow, list: seq<Assignment>): RankRow
    decreases |list|
  {
    if list == [] then r else AssignAll(Assign(r, list[0]), list[1..])
  }

  function Assigning(list: seq<Assignment>): RankRow -> RankRow { (r: RankRow) => AssignAll(r, list) }

  /** The assignments of the fields of a report that are not 0, in the order the statement lists them. */
  function Assignments(info: RankRow): seq<Assignment>
  {
    (if info.level != 0 then [SetLevel(info.level)] else [])
    + (if info.expr != 0 then [SetExpr(info.expr)] else [])
    + (if info.power != 0 then [SetPower(info.power)] else [])
  }

  /** Fields of the newer report replace those of the older unless they are 0. */
  function Merge(older: RankRow, report: RankRow): RankRow
  {
    older.(level := if report.level != 0 then report.level else older.level,
          expr := if report.expr != 0 then report.expr else older.expr,
          power := if report.power != 0 then report.power else older.power)
  }

  function Merging(report: RankRow): RankRow -> RankRow { (r: RankRow) => Merge(r, report) }

  function AfterReport(t: seq<RankRow>, report: RankRow, written: bool): seq<RankRow>
  {
    if !written then t
    else if Exists(t, HasName(report.name)) then Updated(t, HasName(report.name), Merging(report))
    else t + [report]
  }

  function AfterRemoval(t: seq<RankRow>, name: string, written: bool): seq<RankRow>
  {
    if written then Where(t, NotName(name)) else t
  }

  class RankTable {
    var rows: seq<RankRow>

    constructor ()
      ensures rows == []
    {
      rows := [];
    }

    /** The update statement is put together from the fields that are not 0; without any it is not
        executed at all. */
    method UpdateUserRankInfo(info: RankRow, written: bool) returns (ok: bool)
      modifies this
      ensures rows == AfterReport(old(rows), info, written)
      ensures ok <==> written || (Exists(old(rows), HasName(info.name)) && info.level == 0 && info.expr == 0 && info.power == 0)
    {
      if !Exists(rows, HasName(info.name)) {
        if !written {
          return false;
        }
        rows := rows + [info];
        return true;
      } else {
        var list: seq<Assignment> := [];
        if info.level == 0 && info.expr == 0 && info.power == 0 {
          MergeNothing(rows, info);
          return true;
        }
        if info.level != 0 {
          list := list + [SetLevel(info.level)];
        }
        if info.expr != 0 {
          list := list + [SetExpr(info.expr)];
        }
        if info.power != 0 {
          list := list + [SetPower(info.power)];
        }
        if !written {
          return false;
        }
        assert list == Assignments(info);
        AssignMerges(rows, info);
        rows := Updated(rows, HasName(info.name), Assigning(list));
        return true;
      }
    }

    method RemoveUserRankInfo(name: string, written: bool) returns (ok: bool)
      modifies this
      ensures rows == AfterRemoval(old(rows), name, written)
      ensures ok <==> written || !Exists(old(rows), HasName(name))
    {
      if !Exists(rows, HasName(name)) {
        RemoveNothing(rows, name);
        return true;
      }
      if !written {
        return false;
      }
      rows := Where(rows, NotName(name));
      return true;
    }
  }

  lemma MergeNothing(t: seq<RankRow>, info: RankRow)
    requires info.level == 0 && info.expr == 0 && info.power == 0
    ensures Updated(t, HasName(info.name), Merging(info)) == t
  {
  }

  /** The assignments chosen by the report do to a row what merging the report does. */
  lemma AssignMerges(t: seq<RankRow>, info: RankRow)
    ensures Updated(t, HasName(info.name), Assigning(Assignments(info))) == Updated(t, HasName(info.name), Merging(info))
  {
    forall r ensures AssignAll(r, Assignments(info)) == Merge(r, info) {
      AssignmentsMerge(r, info);
    }
  }

  lemma AssignmentsMerge(r: RankRow, info: RankRow)
    ensures AssignAll(r, Assignments(info)) == Merge(r, info)
  {
    var a := if info.level != 0 then [SetLevel(info.level)] else [];
    var b := if info.expr != 0 then [SetExpr(info.expr)] else [];
    var c := if info.power != 0 then [SetPower(info.power)] else [];
    AssignAppend(r, a + b, c);
    AssignAppend(r, a, b);
    OneAssignment(r, a);
    OneAssignment(AssignAll(r, a), b);
    OneAssignment(AssignAll(AssignAll(r, a), b), c);
  }

  lemma OneAssignment(r: RankRow, list: seq<Assignment>)
    requires |list| <= 1
    ensures AssignAll(r, list) == if list == [] then r else Assign(r, list[0])
  {
  }

  lemma {:induction false} AssignAppend(r: RankRow, a: seq<Assignment>, b: seq<Assignment>)
    ensures AssignAll(r, a + b) == AssignAll(AssignAll(r, a), b)
    decreases |a|
  {
    if a == [] {
      assert a + b == b;
    } else {
      AssignAppend(Assign(r, a[0]), a[1..], b);
      assert (a + b)[1..] == a[1..] + b;
    }
  }

  lemma EmptyWhere(t: seq<RankRow>, p: RankRow -> bool)
    ensures Where(t, p) == [] <==> !Exists(t, p)
  {
    if Exists(t, p) {
      var x :| x in t && p(x);
      assert x in Where(t, p);
    } else {
      assert forall x | x in Where(t, p) :: x in t && p(x);
    }
  }

  lemma {:induction false} RemoveNothing(t: seq<RankRow>, name: string)
    requires !Exists(t, HasName(name))
    ensures Where(t, NotName(name)) == t
  {
    if t != [] {
      assert t[0] in t && !HasName(name)(t[0]);
      assert !Exists(t[1..], HasName(name));
      RemoveNothing(t[1..], name);
    }
  }

  // Whole runs.

  datatype Op = Report(row: RankRow, written: bool) | Removal(name: string, written: bool)

  function Apply(t: seq<RankRow>, op: Op): seq<RankRow>
  {
    match op
    case Report(row, written) => AfterReport(t, row, written)
    case Removal(name, written) => AfterRemoval(t, name, written)
  }

  /** The table after ops, from an empty one. */
  function TableAfter(ops: seq<Op>): seq<RankRow>
  {
    if ops == [] then [] else Apply(TableAfter(ops[..|ops| - 1]), ops[|ops| - 1])
  }

  /** The reports on a name that were written since its last written removal, oldest first. */
  function ReportsOn(name: string, ops: seq<Op>): seq<RankRow>
  {
    if ops == [] then []
    else
      var before := ReportsOn(name, ops[..|ops| - 1]);
      match ops[|ops| - 1]
      case Report(row, written) => if written && row.name == name then before + [row] else before
      case Removal(n, written) => if written && n == name then [] else before
  }

  /** The last value in vs that is not 0, or 0. */
  function LastNonZero(vs: seq<int>): int
  {
    if vs == [] then 0
    else if vs[|vs| - 1] != 0 then vs[|vs| - 1]
    else LastNonZero(vs[..|vs| - 1])
  }

  function Levels(rs: seq<RankRow>): seq<int> { seq(|rs|, i requires 0 <= i < |rs| => rs[i].level) }

  function Exprs(rs: seq<RankRow>): seq<int> { seq(|rs|, i requires 0 <= i < |rs| => rs[i].expr) }

  function Powers(rs: seq<RankRow>): seq<int> { seq(|rs|, i requires 0 <= i < |rs| => rs[i].power) }

  /** What the table should say of a name with these reports. */
  function Summary(rs: seq<RankRow>): RankRow
    requires rs != []
  {
    RankRow(rs[0].uid, rs[0].name, rs[0].job, LastNonZero(Levels(rs)), LastNonZero(Exprs(rs)), LastNonZero(Powers(rs)))
  }

  lemma LastNonZeroAppend(vs: seq<int>, v: int)
    ensures LastNonZero(vs + [v]) == if v != 0 then v else LastNonZero(vs)
  {
    assert (vs + [v])[..|vs|] == vs;
  }

  lemma SummaryAppend(rs: seq<RankRow>, r: RankRow)
    ensures Summary(rs + [r]) == if rs == [] then r else Merge(Summary(rs), r)
  {
    assert Levels(rs + [r]) == Levels(rs) + [r.level];
    assert Exprs(rs + [r]) == Exprs(rs) + [r.expr];
    assert Powers(rs + [r]) == Powers(rs) + [r.power];
    LastNonZeroAppend(Levels(rs), r.level);
    LastNonZeroAppend(Exprs(rs), r.expr);
    LastNonZeroAppend(Powers(rs), r.power);
  }

  /** The table holds exactly the summaries: one row for each name with reports since its last
      removal, with the uid and job of the first of them and the last value that is not 0 of each
      of the other fields; no row for any other name. */
  ghost predicate IsFold(t: seq<RankRow>, ops: seq<Op>)
  {
    && DistinctBy(t, NameOf())
    && forall name :: Where(t, HasName(name)) ==
         if ReportsOn(name, ops) == [] then [] else [Summary(ReportsOn(name, ops))]
  }

  lemma {:induction false} TableIsFold(ops: seq<Op>)
    ensures IsFold(TableAfter(ops), ops)
  {
    if ops != [] {
      var before, op := ops[..|ops| - 1], ops[|ops| - 1];
      TableIsFold(before);
      var t, u := TableAfter(before), TableAfter(ops);
      assert u == Apply(t, op);
      match op
      case Report(row, written) => ReportKeepsFold(t, before, row, written, ops);
      case Removal(name, written) => RemovalKeepsFold(t, before, name, written, ops);
    }
  }

  lemma RemovalKeepsFold(t: seq<RankRow>, before: seq<Op>, name: string, written: bool, ops: seq<Op>)
    requires IsFold(t, before) && ops == before + [Removal(name, written)]
    ensures IsFold(AfterRemoval(t, name, written), ops)
  {
    assert ops[..|ops| - 1] == before;
    WhereDistinct(t, NotName(name), NameOf());
    forall n ensures written ==> Where(Where(t, NotName(name)), HasName(n)) == if n == name then [] else Where(t, HasName(n)) {
      WhereOther(t, name, n);
    }
  }

  lemma WhereOther(t: seq<RankRow>, name: string, n: string)
    ensures Where(Where(t, NotName(name)), HasName(n)) == if n == name then [] else Where(t, HasName(n))
  {
    if n == name {
      WhereWithout(t, NotName(name), HasName(n));
    } else {
      WhereWithin(t, NotName(name), HasName(n));
    }
  }

  lemma UpdatedFirst(t: seq<RankRow>, p: RankRow -> bool, f: RankRow -> RankRow)
    requires t != []
    ensures Updated(t, p, f)[0] == if p(t[0]) then f(t[0]) else t[0]
    ensures Updated(t, p, f)[1..] == Updated(t[1..], p, f)
  {
  }

  lemma {:induction false} WhereUpdated(t: seq<RankRow>, report: RankRow, n: string)
    ensures Where(Updated(t, HasName(report.name), Merging(report)), HasName(n)) ==
            if n == report.name then Updated(Where(t, HasName(n)), HasName(n), Merging(report)) else Where(t, HasName(n))
  {
    if t != [] {
      UpdatedFirst(t, HasName(report.name), Merging(report));
      WhereUpdated(t[1..], report, n);
      if t[0].name == n == report.name {
        UpdatedConcat([t[0]], Where(t[1..], HasName(n)), HasName(n), Merging(report));
        UpdateOne(t[0], report);
      }
    }
  }

  lemma UpdatedConcat(a: seq<RankRow>, b: seq<RankRow>, p: RankRow -> bool, f: RankRow -> RankRow)
    ensures Updated(a + b, p, f) == Updated(a, p, f) + Updated(b, p, f)
  {
  }

  /** What a written report does to the rows of one name. */
  lemma ReportOnName(t: seq<RankRow>, row: RankRow, n: string)
    ensures Where(AfterReport(t, row, true), HasName(n)) ==
            if n != row.name then Where(t, HasName(n))
            else if Where(t, HasName(n)) == [] then [row]
            else Updated(Where(t, HasName(n)), HasName(n), Merging(row))
  {
    EmptyWhere(t, HasName(row.name));
    if Exists(t, HasName(row.name)) {
      WhereUpdated(t, row, n);
    } else {
      WhereAppend(t, row, HasName(n));
    }
  }

  lemma UpdateOne(r: RankRow, row: RankRow)
    requires r.name == row.name
    ensures Updated([r], HasName(row.name), Merging(row)) == [Merge(r, row)]
  {
  }

  lemma ReportKeepsNames(t: seq<RankRow>, row: RankRow)
    requires DistinctBy(t, NameOf())
    ensures DistinctBy(AfterReport(t, row, true), NameOf())
  {
    var u := AfterReport(t, row, true);
    forall i, j | 0 <= i < j < |u| ensures NameOf()(u[i]) != NameOf()(u[j]) {
      if j < |t| {
        assert NameOf()(t[i]) != NameOf()(t[j]);
      } else {
        assert t[i] in t && !HasName(row.name)(t[i]);
      }
    }
  }

  lemma ReportKeepsFold(t: seq<RankRow>, before: seq<Op>, row: RankRow, written: bool, ops: seq<Op>)
    requires IsFold(t, before) && ops == before + [Report(row, written)]
    ensures IsFold(AfterReport(t, row, written), ops)
  {
    assert ops[..|ops| - 1] == before;
    if written {
      ReportKeepsNames(t, row);
      forall n ensures Where(AfterReport(t, row, true), HasName(n)) ==
                       if ReportsOn(n, ops) == [] then [] else [Summary(ReportsOn(n, ops))] {
        ReportOnName(t, row, n);
        if n == row.name {
          SummaryAppend(ReportsOn(n, before), row);
          if ReportsOn(n, before) != [] {
            UpdateOne(Summary(ReportsOn(n, before)), row);
          }
        }
      }
    }
  }
}
