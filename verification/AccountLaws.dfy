/** What every sequence of account operations keeps: keys, and the uniqueness of role names. */
module AccountLaws {
  import opened Tables
  import opened Accounts

  datatype AccountOp =
    | Register(users: seq<NewUser>, uids: seq<nat>, room: nat)
    | Unregister(account: string, written: bool)
    | SetPassword(account: string, password: string, written: bool)
    | SetOnline(account: string, online: bool, written: bool)
    | AddNameByUid(uid: nat, name: string, written: bool)
    | AddNameByAccount(account: string, name: string, written: bool)
    | RemoveNameByUid(uid: nat, name: string, written: bool)
    | RemoveNameByAccount(account: string, name: string, written: bool)

  function NotAccount(account: string): AccountRow -> bool { (r: AccountRow) => r.account != account }

  function WithPassword(password: string): AccountRow -> AccountRow {
    (r: AccountRow) => r.(password := password)
  }

  function WithOnline(online: bool): AccountRow -> AccountRow { (r: AccountRow) => r.(online := online) }

  ghost predicate Enabled(t: seq<AccountRow>, op: AccountOp)
  {
    op.Register? ==> |op.users| <= |op.uids| && FreshUids(t, op.uids)
  }

  ghost function Apply(t: seq<AccountRow>, op: AccountOp): seq<AccountRow>
    requires Enabled(t, op)
  {
    match op
    case Register(users, uids, room) => AfterBatch(t, users, uids, room)
    case Unregister(account, written) => if written then Where(t, NotAccount(account)) else t
    case SetPassword(account, password, written) =>
      if written then Updated(t, HasAccount(account), WithPassword(password)) else t
    case SetOnline(account, online, written) =>
      if written then Updated(t, HasAccount(account), WithOnline(online)) else t
    case AddNameByUid(uid, name, written) => AddName(t, AccountByUid(t, uid), HasUid(uid), name, written).0
    case AddNameByAccount(account, name, written) =>
      AddName(t, AccountByName(t, account), HasAccount(account), name, written).0
    case RemoveNameByUid(uid, name, written) => RemoveName(t, AccountByUid(t, uid), HasUid(uid), name, written).0
    case RemoveNameByAccount(account, name, written) =>
      RemoveName(t, AccountByName(t, account), HasAccount(account), name, written).0
  }

  /** ts are the tables passed through when ops are applied to the empty table. */
  ghost predicate IsRun(ops: seq<AccountOp>, ts: seq<seq<AccountRow>>)
  {
    && |ts| == |ops| + 1 && ts[0] == []
    && (forall i | 0 <= i < |ops| :: Enabled(ts[i], ops[i]) && ts[i + 1] == Apply(ts[i], ops[i]))
  }

  // Single steps.

  /** An update that leaves uid and account alone keeps the keys. */
  lemma UpdateKeepsKeys(t: seq<AccountRow>, p: AccountRow -> bool, f: AccountRow -> AccountRow)
    requires AccountKeys(t)
    requires forall r :: f(r).uid == r.uid && f(r).account == r.account
    ensures AccountKeys(Updated(t, p, f))
  {
    var u := Updated(t, p, f);
    forall i, j | 0 <= i < j < |u| ensures u[i].uid != u[j].uid && u[i].account != u[j].account {
      assert UidOf()(t[i]) != UidOf()(t[j]) && AccountOf()(t[i]) != AccountOf()(t[j]);
    }
  }

  /** With distinct keys the lookups find the one row an update by that key changes. */
  lemma OneRow(t: seq<AccountRow>, p: AccountRow -> bool, found: AccountRow)
    requires AccountKeys(t) && found in t
    requires p == HasUid(found.uid) || p == HasAccount(found.account)
    ensures forall r | r in t :: p(r) <==> r == found
  {
    forall r | r in t && p(r) ensures r == found {
      var i :| 0 <= i < |t| && t[i] == r;
      var j :| 0 <= j < |t| && t[j] == found;
    }
  }

  /** Setting one slot of one row to a name nobody has, or to nothing, keeps names unique. */
  lemma SetSlotKeepsNames(t: seq<AccountRow>, p: AccountRow -> bool, found: AccountRow, k: nat, name: string)
    requires AccountKeys(t) && NamesUnique(t) && found in t && k < 3
    requires p == HasUid(found.uid) || p == HasAccount(found.account)
    requires name == "" || !Exists(t, HasName(name))
    ensures AccountKeys(Updated(t, p, SetSlot(k, name))) && NamesUnique(Updated(t, p, SetSlot(k, name)))
  {
    OneRow(t, p, found);
    UpdateKeepsKeys(t, p, SetSlot(k, name));
    var u := Updated(t, p, SetSlot(k, name));
    var changed := SetSlot(k, name)(found);
    forall r | r in u ensures r == changed || (r in t && r != found) {
      var i :| 0 <= i < |u| && u[i] == r;
      assert t[i] in t;
    }
    forall r, q, a: nat, b: nat | r in u && q in u && a < 3 && b < 3 && Slot(r, a) == Slot(q, b) != ""
      ensures r == q && a == b
    {
      SlotsApart(t, found, k, name, r, q, a, b);
    }
  }

  lemma SlotsApart(t: seq<AccountRow>, found: AccountRow, k: nat, name: string, r: AccountRow, q: AccountRow,
                   a: nat, b: nat)
    requires NamesUnique(t) && found in t && k < 3 && a < 3 && b < 3
    requires name == "" || !Exists(t, HasName(name))
    requires r == SetSlot(k, name)(found) || (r in t && r != found)
    requires q == SetSlot(k, name)(found) || (q in t && q != found)
    requires Slot(r, a) == Slot(q, b) != ""
    ensures r == q && a == b
  {
    var r0 := if r in t && r != found then r else found;
    var q0 := if q in t && q != found then q else found;
    if Slot(r, a) == name {
      forall x, c: nat | x in t && c < 3 ensures Slot(x, c) != name {
        assert Slot(x, c) == name ==> HasName(name)(x);
      }
    } else {
      assert Slot(r0, a) == Slot(r, a) && Slot(q0, b) == Slot(q, b);
    }
  }

  lemma AddKeeps(t: seq<AccountRow>, found: Option<AccountRow>, p: AccountRow -> bool, name: string, written: bool)
    requires AccountKeys(t) && NamesUnique(t)
    requires found.Some? ==> found.value in t && (p == HasUid(found.value.uid) || p == HasAccount(found.value.account))
    ensures var u := AddName(t, found, p, name, written).0; AccountKeys(u) && NamesUnique(u)
  {
    if found.Some? && !Exists(t, HasName(name)) && SlotOf(found.value, "") < 3 {
      SetSlotKeepsNames(t, p, found.value, SlotOf(found.value, ""), name);
    }
  }

  lemma RemoveKeeps(t: seq<AccountRow>, found: Option<AccountRow>, p: AccountRow -> bool, name: string, written: bool)
    requires AccountKeys(t) && NamesUnique(t)
    requires found.Some? ==> found.value in t && (p == HasUid(found.value.uid) || p == HasAccount(found.value.account))
    ensures var u := RemoveName(t, found, p, name, written).0; AccountKeys(u) && NamesUnique(u)
  {
    if found.Some? && SlotOf(found.value, name) < 3 {
      SetSlotKeepsNames(t, p, found.value, SlotOf(found.value, name), "");
    }
  }

  /** A batch leaves the old rows in place and keeps every key distinct and not 0. */
  lemma BatchKeepsKeys(t: seq<AccountRow>, users: seq<NewUser>, uids: seq<nat>, room: nat)
    requires AccountKeys(t) && |users| <= |uids| && FreshUids(t, uids)
    ensures var u := AfterBatch(t, users, uids, room); t <= u && AccountKeys(u)
    ensures NamesUnique(t) ==> NamesUnique(AfterBatch(t, users, uids, room))
  {
    var u := AfterBatch(t, users, uids, room);
    forall i, j | 0 <= i < j < |u| ensures UidOf()(u[i]) != UidOf()(u[j]) && AccountOf()(u[i]) != AccountOf()(u[j]) {
      BatchRowsApart(t, users, uids, room, i, j);
    }
    forall r | r in u ensures r.uid != 0 && (r in t || r.name0 == r.name1 == r.name2 == "") {
      var i :| 0 <= i < |u| && u[i] == r;
      if i < |t| { assert r in t; } else { assert uids[i - |t|] in uids; }
    }
  }

  lemma BatchRowsApart(t: seq<AccountRow>, users: seq<NewUser>, uids: seq<nat>, room: nat, i: nat, j: nat)
    requires AccountKeys(t) && |users| <= |uids| && FreshUids(t, uids)
    requires i < j < |AfterBatch(t, users, uids, room)|
    ensures var u := AfterBatch(t, users, uids, room); u[i].uid != u[j].uid && u[i].account != u[j].account
  {
    var todo := Where(users, Insertable(t));
    var u := AfterBatch(t, users, uids, room);
    if j < |t| {
      assert UidOf()(t[i]) != UidOf()(t[j]) && AccountOf()(t[i]) != AccountOf()(t[j]);
    } else if i < |t| {
      var v := todo[j - |t|];
      assert u[i] in t && v in todo;
      assert !HasAccount(v.account)(u[i]);
      assert uids[j - |t|] in uids;
    } else {
      assert !Repeats(todo, j - |t|);
    }
  }

  /** The result of a batch: when the storage takes every insert it is success exactly when no
      insertable account appears twice, and then every insertable account is in. */
  lemma {:induction false} BatchOutcome(t: seq<AccountRow>, users: seq<NewUser>, uids: seq<nat>, room: nat)
    requires |users| <= |uids| && |users| <= room
    ensures var todo := Where(users, Insertable(t));
            && (Added(t, users, room) == |todo| <==> DistinctBy(todo, UserAccount()))
            && (Added(t, users, room) == |todo| ==>
                  forall v | v in todo :: Exists(AfterBatch(t, users, uids, room), HasAccount(v.account)))
            && (Added(t, users, room) < |todo| ==>
                  Exists(AfterBatch(t, users, uids, room), HasAccount(todo[Added(t, users, room)].account)))
  {
    var todo := Where(users, Insertable(t));
    var n := FirstRepeat(todo);
    if n == |todo| {
      forall i, j | 0 <= i < j < |todo| ensures UserAccount()(todo[i]) != UserAccount()(todo[j]) {
        assert !Repeats(todo, j);
      }
    } else {
      var k :| 0 <= k < n && todo[k].account == todo[n].account;
      assert UserAccount()(todo[k]) == UserAccount()(todo[n]);
    }
    var u := AfterBatch(t, users, uids, room);
    forall i | 0 <= i < n ensures Exists(u, HasAccount(todo[i].account)) {
      assert u[|t| + i] in u && HasAccount(todo[i].account)(u[|t| + i]);
    }
  }

  lemma {:induction false} StepKeeps(t: seq<AccountRow>, op: AccountOp)
    requires AccountKeys(t) && NamesUnique(t) && Enabled(t, op)
    ensures AccountKeys(Apply(t, op)) && NamesUnique(Apply(t, op))
  {
    match op
    case Register(users, uids, room) => BatchKeepsKeys(t, users, uids, room);
    case Unregister(account, _) =>
      WhereDistinct(t, NotAccount(account), UidOf());
      WhereDistinct(t, NotAccount(account), AccountOf());
    case SetPassword(account, password, _) => PlainUpdateKeeps(t, HasAccount(account), WithPassword(password));
    case SetOnline(account, online, _) => PlainUpdateKeeps(t, HasAccount(account), WithOnline(online));
    case AddNameByUid(uid, name, written) => AddKeeps(t, AccountByUid(t, uid), HasUid(uid), name, written);
    case AddNameByAccount(account, name, written) =>
      AddKeeps(t, AccountByName(t, account), HasAccount(account), name, written);
    case RemoveNameByUid(uid, name, written) => RemoveKeeps(t, AccountByUid(t, uid), HasUid(uid), name, written);
    case RemoveNameByAccount(account, name, written) =>
      RemoveKeeps(t, AccountByName(t, account), HasAccount(account), name, written);
  }

  /** An update that touches neither keys nor names keeps both. */
  lemma PlainUpdateKeeps(t: seq<AccountRow>, p: AccountRow -> bool, f: AccountRow -> AccountRow)
    requires AccountKeys(t) && NamesUnique(t)
    requires forall r :: f(r).uid == r.uid && f(r).account == r.account
    requires forall r, k: nat | k < 3 :: Slot(f(r), k) == Slot(r, k)
    ensures AccountKeys(Updated(t, p, f)) && NamesUnique(Updated(t, p, f))
  {
    UpdateKeepsKeys(t, p, f);
    var u := Updated(t, p, f);
    forall r, q, a: nat, b: nat | r in u && q in u && a < 3 && b < 3 && Slot(r, a) == Slot(q, b) != ""
      ensures r == q && a == b
    {
      var i :| 0 <= i < |u| && u[i] == r;
      var j :| 0 <= j < |u| && u[j] == q;
      assert t[i] in t && t[j] in t;
      assert Slot(t[i], a) == Slot(r, a) && Slot(t[j], b) == Slot(q, b);
    }
  }

  // Whole runs.

  /** Over every run uids and accounts stay distinct, no uid is 0 and no role name is held twice. */
  lemma {:induction false} RunKeepsNamesUnique(ops: seq<AccountOp>, ts: seq<seq<AccountRow>>, i: nat)
    requires IsRun(ops, ts) && i < |ts|
    ensures AccountKeys(ts[i]) && NamesUnique(ts[i])
  {
    if i > 0 {
      RunKeepsNamesUnique(ops, ts, i - 1);
      StepKeeps(ts[i - 1], ops[i - 1]);
    }
  }

  /** Whatever row the owner query returns, it names the one account that holds the name; 0 means nobody does. */
  lemma OwnerIsUnique(ops: seq<AccountOp>, ts: seq<seq<AccountRow>>, i: nat, name: string, choice: Option<AccountRow>)
    requires IsRun(ops, ts) && i < |ts| && name != "" && Selects(ts[i], HasName(name), choice)
    ensures UidByName(choice) == 0 <==> !exists r :: r in ts[i] && HasName(name)(r)
    ensures forall r | r in ts[i] :: HasName(name)(r) <==> r.uid == UidByName(choice)
  {
    RunKeepsNamesUnique(ops, ts, i);
    var t := ts[i];
    if choice.Some? {
      var owner := choice.value;
      assert Slot(owner, SlotOf(owner, name)) == name;
      OneRow(t, HasUid(owner.uid), owner);
      forall r | r in t && HasName(name)(r) ensures r == owner {
        assert Slot(r, SlotOf(r, name)) == name;
      }
      forall r | r in t && r.uid == owner.uid ensures r == owner {
        assert HasUid(owner.uid)(r);
      }
    } else {
      forall r | r in t ensures !HasName(name)(r) {}
    }
  }

  /** After an update of the account a uid names, the uid still finds that account, updated. */
  lemma LookupAfterUpdate(t: seq<AccountRow>, uid: nat, f: AccountRow -> AccountRow)
    requires AccountKeys(t) && AccountByUid(t, uid).Some? && forall r :: f(r).uid == r.uid
    ensures AccountByUid(Updated(t, HasUid(uid), f), uid) == Some(f(AccountByUid(t, uid).value))
  {
    var found := AccountByUid(t, uid).value;
    var u := Updated(t, HasUid(uid), f);
    OneRow(t, HasUid(uid), found);
    var j :| 0 <= j < |t| && t[j] == found;
    assert u[j] in u && HasUid(uid)(u[j]);
    forall r | r in Where(u, HasUid(uid)) ensures r == f(found) {
      var i :| 0 <= i < |u| && u[i] == r;
      assert t[i] in t;
    }
  }

  lemma UpdateBack(t: seq<AccountRow>, p: AccountRow -> bool, f: AccountRow -> AccountRow, g: AccountRow -> AccountRow)
    requires forall r | r in t && p(r) :: p(f(r)) && g(f(r)) == r
    ensures Updated(Updated(t, p, f), p, g) == t
  {
    forall i | 0 <= i < |t| ensures Updated(Updated(t, p, f), p, g)[i] == t[i] {
      assert t[i] in t;
    }
  }

  /** An add that reported success, undone by removing the name, gives back the table exactly,
      also when every slot was full and the add changed nothing. */
  lemma AddThenRemove(t: seq<AccountRow>, uid: nat, name: string, written: bool)
    requires AccountKeys(t)
    requires AddName(t, AccountByUid(t, uid), HasUid(uid), name, written).1
    ensures var u := AddName(t, AccountByUid(t, uid), HasUid(uid), name, written).0;
            && RemoveName(u, AccountByUid(u, uid), HasUid(uid), name, true).0 == t
            && (RemoveName(u, AccountByUid(u, uid), HasUid(uid), name, true).1 <==> u != t)
  {
    var found := AccountByUid(t, uid).value;
    assert !HasName(name)(found);
    var k := SlotOf(found, "");
    if k < 3 {
      var u := Updated(t, HasUid(uid), SetSlot(k, name));
      OneRow(t, HasUid(uid), found);
      LookupAfterUpdate(t, uid, SetSlot(k, name));
      UpdateBack(t, HasUid(uid), SetSlot(k, name), SetSlot(k, ""));
      assert SlotOf(SetSlot(k, name)(found), name) == k;
      assert u != t by { assert AccountByUid(u, uid) != AccountByUid(t, uid); }
    }
  }
}
