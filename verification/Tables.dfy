/** SQL tables as sequences of rows, with the few statement shapes the login server uses.
    A WHERE clause is a predicate on rows; named functions returning predicates keep
    the clauses of a statement and of its specification the same term. */
module Tables {

  datatype Option<+T> = None | Some(value: T)

  /** The rows satisfying p in table order: what SELECT ... WHERE p returns,
      and what DELETE ... WHERE !p leaves behind. */
  function Where<T>(rows: seq<T>, p: T -> bool): (r: seq<T>)
    ensures |r| <= |rows|
    ensures forall x | x in r :: x in rows && p(x)
    ensures forall x | x in rows && p(x) :: x in r
  {
    if rows == [] then []
    else (if p(rows[0]) then [rows[0]] else []) + Where(rows[1..], p)
  }

  /** UPDATE ... SET f WHERE p. */
  function Updated<T>(rows: seq<T>, p: T -> bool, f: T -> T): (r: seq<T>)
    ensures |r| == |rows|
    ensures forall i | 0 <= i < |rows| :: r[i] == if p(rows[i]) then f(rows[i]) else rows[i]
  {
    seq(|rows|, i requires 0 <= i < |rows| => if p(rows[i]) then f(rows[i]) else rows[i])
  }

  /** SELECT SUM(f); the code reads a NULL sum (no rows) as 0. */
  function SumBy<T>(rows: seq<T>, f: T -> int): int
  {
    if rows == [] then 0 else f(rows[0]) + SumBy(rows[1..], f)
  }

  /** SELECT COUNT(*) WHERE p is not 0. */
  predicate Exists<T>(rows: seq<T>, p: T -> bool): (r: bool)
    ensures r <==> exists x :: x in rows && p(x)
  {
    if rows == [] then false else p(rows[0]) || Exists(rows[1..], p)
  }

  /** A SELECT without ORDER BY read up to its first row: any matching row, or none if none matches. */
  ghost predicate Selects<T>(rows: seq<T>, p: T -> bool, choice: Option<T>)
  {
    match choice
    case Some(x) => x in rows && p(x)
    case None => !Exists(rows, p)
  }

  /** The rows from index 0 on carry pairwise different keys. */
  ghost predicate DistinctBy<T, K>(rows: seq<T>, key: T -> K)
  {
    forall i, j | 0 <= i < j < |rows| :: key(rows[i]) != key(rows[j])
  }

  /** The first of the rows, as a scan of one result row reads it. */
  function First<T>(rows: seq<T>): (r: Option<T>)
    ensures r.None? <==> rows == []
    ensures r.Some? ==> r.value in rows
  {
    if |rows| == 0 then None else Some(rows[0])
  }

  lemma {:induction false} WhereConcat<T>(a: seq<T>, b: seq<T>, p: T -> bool)
    ensures Where(a + b, p) == Where(a, p) + Where(b, p)
  {
    if a == [] {
      assert a + b == b;
    } else {
      var head := if p(a[0]) then [a[0]] else [];
      calc {
        Where(a + b, p);
      == { assert (a + b)[0] == a[0] && (a + b)[1..] == a[1..] + b; }
        head + Where(a[1..] + b, p);
      == { WhereConcat(a[1..], b, p); }
        head + (Where(a[1..], p) + Where(b, p));
      == { SeqAssociates(head, Where(a[1..], p), Where(b, p)); }
        head + Where(a[1..], p) + Where(b, p);
      == 
        Where(a, p) + Where(b, p);
      }
    }
  }

  lemma SeqAssociates<T>(a: seq<T>, b: seq<T>, c: seq<T>)
    ensures a + (b + c) == a + b + c
  {
  }

  lemma {:induction false} WhereAppend<T>(rows: seq<T>, x: T, p: T -> bool)
    ensures Where(rows + [x], p) == Where(rows, p) + if p(x) then [x] else []
  {
    WhereConcat(rows, [x], p);
    assert [x][1..] == [];
  }

  /** Going one row further along a table. */
  lemma {:induction false} WhereTake<T>(rows: seq<T>, i: nat, p: T -> bool)
    requires i < |rows|
    ensures Where(rows[..i + 1], p) == if p(rows[i]) then Where(rows[..i], p) + [rows[i]] else Where(rows[..i], p)
  {
    assert rows[..i + 1] == rows[..i] + [rows[i]];
    WhereAppend(rows[..i], rows[i], p);
    assert Where(rows[..i], p) + [] == Where(rows[..i], p);
  }

  lemma {:induction false} WhereSplit<T>(rows: seq<T>, i: nat, p: T -> bool)
    requires i <= |rows|
    ensures Where(rows, p) == Where(rows[..i], p) + Where(rows[i..], p)
  {
    assert rows[..i] + rows[i..] == rows;
    WhereConcat(rows[..i], rows[i..], p);
  }

  lemma {:induction false} WhereHead<T>(rows: seq<T>, i: nat, p: T -> bool)
    requires i < |rows| && p(rows[i])
    ensures Where(rows[i..], p) == [rows[i]] + Where(rows[i + 1..], p)
  {
    assert rows[i..][1..] == rows[i + 1..];
  }

  /** Where a matching row stands among all matching rows. */
  lemma {:induction false} WherePosition<T>(rows: seq<T>, i: nat, p: T -> bool)
    requires i < |rows| && p(rows[i])
    ensures var before, all := Where(rows[..i], p), Where(rows, p);
            |before| < |all| && all[..|before|] == before && all[|before|] == rows[i]
  {
    WhereSplit(rows, i, p);
    WhereHead(rows, i, p);
    Splice(Where(rows[..i], p), rows[i], Where(rows[i + 1..], p));
  }

  lemma Splice<T>(a: seq<T>, x: T, b: seq<T>)
    ensures (a + ([x] + b))[..|a|] == a && (a + ([x] + b))[|a|] == x
  {
  }

  /** Deleting rows that q does not select leaves what q selects as it was. */
  lemma {:induction false} WhereWithin<T>(rows: seq<T>, p: T -> bool, q: T -> bool)
    requires forall x | x in rows && q(x) :: p(x)
    ensures Where(Where(rows, p), q) == Where(rows, q)
  {
    if rows != [] {
      WhereWithin(rows[1..], p, q);
      WhereConcat(if p(rows[0]) then [rows[0]] else [], Where(rows[1..], p), q);
    }
  }

  /** Deleting all rows that q selects leaves none of them. */
  lemma {:induction false} WhereWithout<T>(rows: seq<T>, p: T -> bool, q: T -> bool)
    requires forall x | x in rows && p(x) :: !q(x)
    ensures Where(Where(rows, p), q) == []
  {
    if rows != [] {
      WhereWithout(rows[1..], p, q);
      WhereConcat(if p(rows[0]) then [rows[0]] else [], Where(rows[1..], p), q);
    }
  }

  /** Deleting rows keeps distinct keys distinct. */
  lemma {:induction false} WhereDistinct<T, K>(rows: seq<T>, p: T -> bool, key: T -> K)
    requires DistinctBy(rows, key)
    ensures DistinctBy(Where(rows, p), key)
  {
    if rows != [] {
      var rest := rows[1..];
      assert DistinctBy(rest, key) by {
        forall i, j | 0 <= i < j < |rest| ensures key(rest[i]) != key(rest[j]) {
          assert rest[i] == rows[i + 1] && rest[j] == rows[j + 1];
        }
      }
      WhereDistinct(rest, p, key);
      forall x | x in Where(rest, p) ensures key(x) != key(rows[0]) {
        var k :| 0 <= k < |rest| && rest[k] == x;
        assert rows[k + 1] == x;
      }
    }
  }

  lemma {:induction false} SumConcat<T>(a: seq<T>, b: seq<T>, f: T -> int)
    ensures SumBy(a + b, f) == SumBy(a, f) + SumBy(b, f)
  {
    if a == [] {
      assert a + b == b;
    } else {
      SumConcat(a[1..], b, f);
      assert (a + b)[1..] == a[1..] + b;
    }
  }

  lemma {:induction false} SumAppend<T>(rows: seq<T>, x: T, f: T -> int)
    ensures SumBy(rows + [x], f) == SumBy(rows, f) + f(x)
  {
    SumConcat(rows, [x], f);
    assert [x][1..] == [];
  }

  lemma {:induction false} SumNonNegative<T>(rows: seq<T>, f: T -> int)
    requires forall x | x in rows :: 0 <= f(x)
    ensures 0 <= SumBy(rows, f)
  {
    if rows != [] {
      SumNonNegative(rows[1..], f);
    }
  }

  /** Replacing one row changes a sum by the difference of the two rows. */
  lemma {:induction false} SumReplace<T>(rows: seq<T>, i: nat, x: T, f: T -> int)
    requires i < |rows|
    ensures SumBy(rows[i := x], f) == SumBy(rows, f) - f(rows[i]) + f(x)
  {
    assert rows == rows[..i] + ([rows[i]] + rows[i + 1..]);
    assert rows[i := x] == rows[..i] + ([x] + rows[i + 1..]);
    SumConcat(rows[..i], [rows[i]] + rows[i + 1..], f);
    SumConcat(rows[..i], [x] + rows[i + 1..], f);
    assert ([rows[i]] + rows[i + 1..])[1..] == rows[i + 1..];
    assert ([x] + rows[i + 1..])[1..] == rows[i + 1..];
  }

  /** Deleting rows that contribute nothing leaves the sum as it was. */
  lemma {:induction false} SumWhere<T>(rows: seq<T>, p: T -> bool, f: T -> int)
    requires forall x | x in rows && !p(x) :: f(x) == 0
    ensures SumBy(Where(rows, p), f) == SumBy(rows, f)
  {
    if rows != [] {
      SumWhere(rows[1..], p, f);
      SumConcat(if p(rows[0]) then [rows[0]] else [], Where(rows[1..], p), f);
    }
  }
}
