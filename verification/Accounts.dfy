/** The useraccount table: batch registration under its uniqueness constraints, and the three
    role-name slots of each account, whose names are unique across the whole table. */
module Accounts {
  import opened Tables

  datatype AccountRow = AccountRow(uid: nat, account: string, password: string,
                                   name0: string, name1: string, name2: string, online: bool, mail: string)

  /** What a caller supplies for a new account. */
  datatype NewUser = NewUser(account: string, password: string, mail: string)

  // Columns and clauses.

  function UidOf(): AccountRow -> nat { (r: AccountRow) => r.uid }

  function AccountOf(): AccountRow -> string { (r: AccountRow) => r.account }

  function UserAccount(): NewUser -> string { (u: NewUser) => u.account }

  function HasAccount(account: string): AccountRow -> bool { (r: AccountRow) => r.account == account }

  function HasUid(uid: nat): AccountRow -> bool { (r: AccountRow) => r.uid == uid }

  function HasName(name: string): AccountRow -> bool {
    (r: AccountRow) => r.name0 == name || r.name1 == name || r.name2 == name
  }

  /** What the schema promises: uid is the primary key and account is UNIQUE; the uids it
      generates are not 0. */
  ghost predicate AccountKeys(t: seq<AccountRow>)
  {
    && DistinctBy(t, UidOf())
    && DistinctBy(t, AccountOf())
    && (forall r | r in t :: r.uid != 0)
  }

  /** The account lookups; an account name over 20 bytes is never looked up. */
  function AccountByName(t: seq<AccountRow>, account: string): Option<AccountRow>
  {
    if |account| > 20 then None else First(Where(t, HasAccount(account)))
  }

  function AccountByUid(t: seq<AccountRow>, uid: nat): Option<AccountRow>
  {
    First(Where(t, HasUid(uid)))
  }

  // Role names.

  /** Slot k of an account, k being 0, 1 or 2. */
  function Slot(r: AccountRow, k: nat): string
    requires k < 3
  {
    if k == 0 then r.name0 else if k == 1 then r.name1 else r.name2
  }

  function SetSlot(k: nat, name: string): AccountRow -> AccountRow
    requires k < 3
  {
    (r: AccountRow) =>
      if k == 0 then r.(name0 := name) else if k == 1 then r.(name1 := name) else r.(name2 := name)
  }

  /** The first slot holding the name, or 3. */
  function SlotOf(r: AccountRow, name: string): (k: nat)
    ensures k <= 3
    ensures k < 3 ==> Slot(r, k) == name
    ensures k == 3 ==> !HasName(name)(r)
  {
    if r.name0 == name then 0 else if r.name1 == name then 1 else if r.name2 == name then 2 else 3
  }

  /** Adds a name to the account the lookup found; key is the clause of the update statement.
      A full account reports success and changes nothing. */
  function AddName(t: seq<AccountRow>, found: Option<AccountRow>, key: AccountRow -> bool, name: string,
                   written: bool): (seq<AccountRow>, bool)
  {
    if found.None? || Exists(t, HasName(name)) then (t, false)
    else
      var k := SlotOf(found.value, "");
      if k == 3 then (t, true)
      else if !written then (t, false)
      else (Updated(t, key, SetSlot(k, name)), true)
  }

  /** Clears the first slot of the account that holds the name. */
  function RemoveName(t: seq<AccountRow>, found: Option<AccountRow>, key: AccountRow -> bool, name: string,
                      written: bool): (seq<AccountRow>, bool)
  {
    if found.None? then (t, false)
    else
      var k := SlotOf(found.value, name);
      if k == 3 || !written then (t, false)
      else (Updated(t, key, SetSlot(k, "")), true)
  }

  /** A non-empty name fills at most one slot of one account. */
  ghost predicate NamesUnique(t: seq<AccountRow>)
  {
    forall r, q, a: nat, b: nat | r in t && q in t && a < 3 && b < 3 && Slot(r, a) == Slot(q, b) != "" ::
      r == q && a == b
  }

  /** The owner of a name as the query's first row gives it; 0 when no row matches. */
  function UidByName(choice: Option<AccountRow>): nat
  {
    if choice.Some? then choice.value.uid else 0
  }

  // Batch registration.

  /** Only accounts not in the table and at most 19 bytes long are inserted. */
  function Insertable(t: seq<AccountRow>): NewUser -> bool
  {
    (u: NewUser) => !Exists(t, HasAccount(u.account)) && |u.account| <= 19 && |u.password| <= 19
  }

  function NewRow(uid: nat, u: NewUser): AccountRow
  {
    AccountRow(uid, u.account, u.password, "", "", "", false, u.mail)
  }

  function NewRows(us: seq<NewUser>, uids: seq<nat>): (rows: seq<AccountRow>)
    requires |us| <= |uids|
    ensures |rows| == |us|
  {
    seq(|us|, i requires 0 <= i < |us| => NewRow(uids[i], us[i]))
  }

  /** Entry n of a batch names the same account as an earlier entry. */
  ghost predicate Repeats(us: seq<NewUser>, n: nat)
    requires n < |us|
  {
    exists k :: 0 <= k < n && us[k].account == us[n].account
  }

  /** The first entry from position k on that repeats an earlier account, or the length of the batch. */
  ghost function FirstRepeat(us: seq<NewUser>, k: nat := 0): (n: nat)
    requires k <= |us|
    ensures k <= n <= |us|
    ensures forall i | k <= i < n :: !Repeats(us, i)
    ensures n < |us| ==> Repeats(us, n)
    decreases |us| - k
  {
    if k == |us| || Repeats(us, k) then k else FirstRepeat(us, k + 1)
  }

  /** How many accounts a batch adds when room is the number of inserts the storage still takes. */
  ghost function Added(t: seq<AccountRow>, users: seq<NewUser>, room: nat): (n: nat)
    ensures n <= |Where(users, Insertable(t))| <= |users|
  {
    var todo := Where(users, Insertable(t));
    if room < FirstRepeat(todo) then room else FirstRepeat(todo)
  }

  /** The table a batch leaves: the old rows, then the insertable entries in order up to the first
      that repeats an account of the batch or finds the storage failing. */
  ghost function AfterBatch(t: seq<AccountRow>, users: seq<NewUser>, uids: seq<nat>, room: nat): seq<AccountRow>
    requires |users| <= |uids|
  {
    t + NewRows(Where(users, Insertable(t))[..Added(t, users, room)], uids)
  }

  /** Autogenerated keys: not 0, not in use, no two alike. */
  ghost predicate FreshUids(t: seq<AccountRow>, uids: seq<nat>)
  {
    && (forall i, j | 0 <= i < j < |uids| :: uids[i] != uids[j])
    && (forall u | u in uids :: u != 0 && !exists r :: r in t && r.uid == u)
  }

  /** useraccount and the code that changes it. written says whether the storage takes the write. */
  class AccountTable {
    var rows: seq<AccountRow>

    constructor ()
      ensures rows == []
    {
      rows := [];
    }

    method AddUserNameByUid(uid: nat, name: string, written: bool) returns (ok: bool)
      modifies this
      ensures (rows, ok) == AddName(old(rows), AccountByUid(old(rows), uid), HasUid(uid), name, written)
    {
      var info := AccountByUid(rows, uid);
      if info.None? {
        return false;
      }
      if Exists(rows, HasName(name)) {
        return false;
      }
      if |info.value.name0| == 0 {
        if !written { return false; }
        rows := Updated(rows, HasUid(uid), SetSlot(0, name));
      } else if |info.value.name1| == 0 {
        if !written { return false; }
        rows := Updated(rows, HasUid(uid), SetSlot(1, name));
      } else if |info.value.name2| == 0 {
        if !written { return false; }
        rows := Updated(rows, HasUid(uid), SetSlot(2, name));
      }
      return true;
    }

    method RemoveUserNameByUid(uid: nat, name: string, written: bool) returns (ok: bool)
      modifies this
      ensures (rows, ok) == RemoveName(old(rows), AccountByUid(old(rows), uid), HasUid(uid), name, written)
    {
      var info := AccountByUid(rows, uid);
      if info.None? {
        return false;
      }
      var index: int := -1;
      if info.value.name0 == name {
        index := 0;
      } else if info.value.name1 == name {
        index := 1;
      } else if info.value.name2 == name {
        index := 2;
      }
      if index == -1 {
        return false;
      }
      if !written {
        return false;
      }
      rows := Updated(rows, HasUid(uid), SetSlot(index, ""));
      return true;
    }

    /** One flag for each user whose account is already in the table. */
    method MarkTaken(users: seq<NewUser>) returns (taken: seq<bool>)
      ensures |taken| == |users|
      ensures forall k | 0 <= k < |users| :: taken[k] == Exists(rows, HasAccount(users[k].account))
    {
      taken := seq(|users|, _ => false);
      for i := 0 to |users|
        invariant |taken| == |users|
        invariant forall k | 0 <= k < |users| :: taken[k] == (k < i && Exists(rows, HasAccount(users[k].account)))
      {
        if Exists(rows, HasAccount(users[i].account)) {
          taken := taken[i := true];
        }
      }
    }

    /** One INSERT: refused when the account is taken, or when the storage fails. */
    method InsertRow(row: AccountRow, written: bool) returns (ok: bool)
      modifies this
      ensures ok <==> !Exists(old(rows), HasAccount(row.account)) && written
      ensures rows == if ok then old(rows) + [row] else old(rows)
    {
      if Exists(rows, HasAccount(row.account)) || !written {
        return false;
      }
      rows := rows + [row];
      return true;
    }

    /** Inserts the users that are not marked one by one, stopping at the first insert that fails. */
    method InsertUnmarked(users: seq<NewUser>, taken: seq<bool>, uids: seq<nat>, room: nat) returns (ok: bool)
      requires |users| <= |uids| && |taken| == |users|
      requires forall k | 0 <= k < |users| :: taken[k] == Exists(rows, HasAccount(users[k].account))
      modifies this
      ensures rows == AfterBatch(old(rows), users, uids, room)
      ensures ok <==> Added(old(rows), users, room) == |Where(users, Insertable(old(rows)))|
    {
      ghost var t := rows;
      var n: nat := 0;
      ReachedStart(t, users, uids, room);
      for i := 0 to |users|
        invariant Reached(t, users, i, uids, room, n, rows)
      {
        var v := users[i];
        assert Insertable(t)(v) <==> !taken[i] && |v.account| <= 19 && |v.password| <= 19;
        if taken[i] || |v.account| > 19 || |v.password| > 19 {
          ReachedSkip(t, users, i, uids, room, n, rows);
          continue;
        }
        ghost var before := rows;
        var inserted := InsertRow(NewRow(uids[n], v), n < room);
        if !inserted {
          ReachedStop(t, users, i, uids, room, n, before);
          return false;
        }
        ReachedTake(t, users, i, uids, room, n, before);
        n := n + 1;
      }
      ReachedEnd(t, users, uids, room, n, rows);
      return true;
    }

    /** First marks the entries whose account is taken, then inserts the others. */
    method InsertUsers(users: seq<NewUser>, uids: seq<nat>, room: nat) returns (ok: bool)
      requires |users| <= |uids|
      modifies this
      ensures rows == AfterBatch(old(rows), users, uids, room)
      ensures old(rows) <= rows && |rows| == |old(rows)| + Added(old(rows), users, room)
      ensures forall i | 0 <= i < Added(old(rows), users, room) ::
                var v := Where(users, Insertable(old(rows)))[i];
                rows[|old(rows)| + i] == AccountRow(uids[i], v.account, v.password, "", "", "", false, v.mail)
      ensures ok <==> Added(old(rows), users, room) == |Where(users, Insertable(old(rows)))|
    {
      if |users| == 0 {
        return true;
      }
      var taken := MarkTaken(users);
      ok := InsertUnmarked(users, taken, uids, room);
    }
  }

  /** Who is insertable: accounts that are not in the table, with at most 19 characters in name and password. */
  lemma {:induction false} InsertableExactly(t: seq<AccountRow>, u: NewUser)
    ensures Insertable(t)(u) <==> |u.account| <= 19 && |u.password| <= 19 && !exists r :: r in t && r.account == u.account
  {
    if r :| r in t && r.account == u.account {
      assert HasAccount(u.account)(r);
    }
    if Exists(t, HasAccount(u.account)) {
      var r :| r in t && HasAccount(u.account)(r);
      assert r.account == u.account;
    }
  }

  /** What a batch writes for the i-th insertable user. */
  lemma {:induction false} BatchRow(t: seq<AccountRow>, users: seq<NewUser>, uids: seq<nat>, room: nat, i: nat)
    requires |users| <= |uids| && i < Added(t, users, room)
    ensures var u, v := AfterBatch(t, users, uids, room), Where(users, Insertable(t))[i];
            |t| + i < |u| && u[|t| + i] == AccountRow(uids[i], v.account, v.password, "", "", "", false, v.mail)
  {
  }

  /** The insert loop has dealt with the first i users and added n of them without stopping. */
  ghost predicate Reached(t: seq<AccountRow>, users: seq<NewUser>, i: nat, uids: seq<nat>, room: nat, n: nat,
                          rows: seq<AccountRow>)
    requires i <= |users| <= |uids|
  {
    var done := Where(users[..i], Insertable(t));
    && n == |done| <= i && n <= room && n <= FirstRepeat(Where(users, Insertable(t)))
    && rows == t + NewRows(done, uids)
  }

  lemma ReachedStart(t: seq<AccountRow>, users: seq<NewUser>, uids: seq<nat>, room: nat)
    requires |users| <= |uids|
    ensures Reached(t, users, 0, uids, room, 0, t)
  {
    assert users[..0] == [];
  }

  /** A user whose account is taken or too long is passed over. */
  lemma ReachedSkip(t: seq<AccountRow>, users: seq<NewUser>, i: nat, uids: seq<nat>, room: nat, n: nat,
                    rows: seq<AccountRow>)
    requires i < |users| <= |uids| && Reached(t, users, i, uids, room, n, rows)
    requires !Insertable(t)(users[i])
    ensures Reached(t, users, i + 1, uids, room, n, rows)
  {
    WhereTake(users, i, Insertable(t));
  }

  /** An insert that fails ends the batch with exactly the accounts added so far. */
  lemma ReachedStop(t: seq<AccountRow>, users: seq<NewUser>, i: nat, uids: seq<nat>, room: nat, n: nat,
                    rows: seq<AccountRow>)
    requires i < |users| <= |uids| && Reached(t, users, i, uids, room, n, rows)
    requires Insertable(t)(users[i])
    requires Exists(rows, HasAccount(users[i].account)) || n == room
    ensures n == Added(t, users, room) < |Where(users, Insertable(t))|
    ensures rows == AfterBatch(t, users, uids, room)
  {
    NextInsert(t, users, i, uids, room, n, rows);
  }

  /** The next insert runs into the UNIQUE constraint exactly when its account repeats one of the batch. */
  lemma NextInsert(t: seq<AccountRow>, users: seq<NewUser>, i: nat, uids: seq<nat>, room: nat, n: nat,
                   rows: seq<AccountRow>)
    requires i < |users| <= |uids| && Reached(t, users, i, uids, room, n, rows) && Insertable(t)(users[i])
    ensures var done, todo := Where(users[..i], Insertable(t)), Where(users, Insertable(t));
            && n < |todo| && todo[..n] == done && todo[n] == users[i]
            && (Exists(rows, HasAccount(users[i].account)) <==> n == FirstRepeat(todo))
  {
    var done, todo := Where(users[..i], Insertable(t)), Where(users, Insertable(t));
    WherePosition(users, i, Insertable(t));
    NewRowsHold(t, done, uids, users[i].account);
    forall k | 0 <= k < n ensures todo[k] == done[k] {
      assert todo[..n][k] == todo[k];
    }
    assert Repeats(todo, n) <==> exists k :: 0 <= k < |done| && done[k].account == users[i].account;
  }

  /** An insert that is taken extends the rows by the next new one. */
  lemma ReachedTake(t: seq<AccountRow>, users: seq<NewUser>, i: nat, uids: seq<nat>, room: nat, n: nat,
                    rows: seq<AccountRow>)
    requires i < |users| <= |uids| && Reached(t, users, i, uids, room, n, rows)
    requires Insertable(t)(users[i])
    requires !Exists(rows, HasAccount(users[i].account)) && n < room
    ensures Reached(t, users, i + 1, uids, room, n + 1, rows + [NewRow(uids[n], users[i])])
  {
    NextInsert(t, users, i, uids, room, n, rows);
    WhereTake(users, i, Insertable(t));
    NewRowsAppend(t, Where(users[..i], Insertable(t)), users[i], uids);
  }

  lemma NewRowsAppend(t: seq<AccountRow>, us: seq<NewUser>, u: NewUser, uids: seq<nat>)
    requires |us| < |uids|
    ensures t + NewRows(us + [u], uids) == t + NewRows(us, uids) + [NewRow(uids[|us|], u)]
  {
  }

  lemma ReachedEnd(t: seq<AccountRow>, users: seq<NewUser>, uids: seq<nat>, room: nat, n: nat, rows: seq<AccountRow>)
    requires |users| <= |uids| && Reached(t, users, |users|, uids, room, n, rows)
    ensures n == Added(t, users, room) == |Where(users, Insertable(t))|
    ensures rows == AfterBatch(t, users, uids, room)
  {
    assert users[..|users|] == users;
    var todo := Where(users, Insertable(t));
    assert todo[..n] == todo;
  }

  /** The account names of a table with new rows are those of the table and of the new rows. */
  lemma NewRowsHold(t: seq<AccountRow>, us: seq<NewUser>, uids: seq<nat>, account: string)
    requires |us| <= |uids|
    ensures Exists(t + NewRows(us, uids), HasAccount(account)) <==>
            Exists(t, HasAccount(account)) || exists k :: 0 <= k < |us| && us[k].account == account
  {
    var rows := NewRows(us, uids);
    if k :| 0 <= k < |us| && us[k].account == account {
      assert rows[k] in t + rows && HasAccount(account)(rows[k]);
    }
    if x :| x in rows && HasAccount(account)(x) {
      var i :| 0 <= i < |rows| && rows[i] == x;
      assert us[i].account == account;
    }
  }
}
